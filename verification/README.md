# PlugInfo: dependency ordering and subcommands, in Dafny

PlugInfo is a Bukkit server plugin behind the `/pluginfo` command. Its
algorithmic core sits in `Util.java`. `buildDependedGraph` turns the
installed plugins' `depend` and `softdepend` lists into a depended-by
graph. That graph maps a plugin name to the names of the plugins that
declare a dependency on it. `findPluginDependencies` peels that graph in
rounds, starting from one plugin. It returns the order in which that plugin
and all its transitive dependents are unloaded: dependents first, the plugin
itself last.

`PlugInfoCommand.java` holds the command front end:
- a table of subcommands;
- dispatch that ignores the case of the subcommand name, and tab completion, which does not;
- `depend`, which reports the direct and transitive dependents of a plugin;
- `reload`, which unloads that order and loads it back in reverse;
- `graph`, which writes the depended-by graph as Graphviz lines.

The model is split by module:

- `seqs.dfy` (`Seqs`): list helpers.
  - element sets and duplicate-freedom;
  - `Collections.reverse`;
  - Java's `String.contains` and `toLowerCase`;
  - the stream filter used for completion.
- `graph.dfy` (`DependencyGraph`): the graph type and its ghost notions.
  - walks, reachability and acyclicity from a name;
  - `DependentsFirst`, the ordering the unload order satisfies.
- `util.dfy` (`Util`): the two static helpers.
  - `BuildDependedGraph` uses the same nested loops as the source, proved equal to the functional `DependedGraph`.
  - `FindPluginDependencies` is a `while` loop over `todo`, `done`, `order` and the live graph. Each pass is the `Round` method: the `ScanRound` scan of `todo` in an unspecified order, then `RemovePlaced`.
  - Termination is proved under the precondition that no cycle can be reached from the target.
- `command.dfy` (`Commands`): the `PlugInfoCommand` class.
  - Its `commandMap` (a `LinkedHashMap`) is a key list plus an entry map.
  - `RegisterCommand`, `Enable`, `OnCommand` and `OnTabComplete`.
- `subcommands.dfy` (`Subcommands`): `depend` and `reload` over an explicit registry snapshot.
  - Messages become returned data.
  - The `plugman unload/load` console commands become a returned command list.
  - The effect of that list on the set of loaded plugins is given by `Run`.
- `dot.dfy` (`DotGraph`): `graph`, returning the lines of the file.

## Model

| member | source | states |
|---|---|---|
| Util.BuildDependedGraph | src/main/java/com/cavetale/pluginfo/Util.java:15-26 | the built graph is DependedGraph(registry); its keys are exactly the names some plugin declares in `depend` or `softdepend`; b is in graph[d] exactly when plugin b declares d; every entry is non-empty |
| Util.DependedGraphKeys | src/main/java/com/cavetale/pluginfo/Util.java:17-23 | a name is a key exactly when some plugin declares it as a dependency |
| Util.DependedGraphEntries | src/main/java/com/cavetale/pluginfo/Util.java:17-23 | b is in the entry for d exactly when a plugin named b declares d, mandatory or optional |
| Util.DependedGraphEdges | src/main/java/com/cavetale/pluginfo/Util.java:19-22 | keys and entries as above, and no entry of a freshly built graph is empty |
| Util.AddAllEdges | src/main/java/com/cavetale/pluginfo/Util.java:18-23 | the inner loops add exactly the listed names as keys and exactly b to each of their entries; nothing else changes |
| Util.OptionalMandatoryEquivalence | src/main/java/com/cavetale/pluginfo/Util.java:17-23 | two registries with the same names and the same declared dependencies give the same graph, whichever list each dependency is declared in |
| Util.SameDeclarations | src/main/java/com/cavetale/pluginfo/Util.java:17-23 | such registries have the same dependency names and the same depends-on pairs |
| Util.FindPluginDependencies | src/main/java/com/cavetale/pluginfo/Util.java:28-68 | on a graph with no cycle reachable from the target, the loop terminates; the order is non-empty, ends with the target and has no duplicate; a name is in it exactly when it is reachable from the target; every name comes after all of its dependents; a target with no entry or an empty entry gives exactly [target]; the graph keeps its keys and each entry loses exactly the placed names |
| Util.Round | src/main/java/com/cavetale/pluginfo/Util.java:43-65 | one pass of the while loop keeps the loop invariant and decreases the measure (unseen reachable names, names in todo) |
| Util.ScanRound | src/main/java/com/cavetale/pluginfo/Util.java:47-60 | the scan appends exactly the ready names of todo, each once, to the order and to doRemove; doAdd holds only dependents of todo that were not yet done, and they are added to done; every dependent of a non-ready name is done afterwards |
| Util.RemovePlaced | src/main/java/com/cavetale/pluginfo/Util.java:61-63 | every entry loses the placed names; the key set is unchanged |
| Util.RoundMakesProgress | src/main/java/com/cavetale/pluginfo/Util.java:43-65 | without a reachable cycle, every round places a name or discovers a new dependent |
| Util.MeasureDecreases | src/main/java/com/cavetale/pluginfo/Util.java:53-65 | such a round decreases (unseen names, size of todo) lexicographically |
| Util.RoundGraph | src/main/java/com/cavetale/pluginfo/Util.java:61-63 | after a round the live graph is the original minus every name placed so far |
| Util.RoundOrder | src/main/java/com/cavetale/pluginfo/Util.java:49-63 | the names placed in a round are new, and each is placed after all of its dependents |
| Util.RoundSets | src/main/java/com/cavetale/pluginfo/Util.java:41-65 | after a round, todo and the placed names are disjoint and together make up done; a done name is never put back into todo |
| Util.RoundReach | src/main/java/com/cavetale/pluginfo/Util.java:53-57 | every name discovered is reachable from the target |
| Util.RoundPreservesInvariant | src/main/java/com/cavetale/pluginfo/Util.java:43-65 | a full round keeps the loop invariant and decreases the measure |
| Util.PeelComplete | src/main/java/com/cavetale/pluginfo/Util.java:33-67 | when todo is empty the order is exactly the target and its transitive dependents, dependents first, target last, without duplicates |
| DependencyGraph.StuckMeansCycle | src/main/java/com/cavetale/pluginfo/Util.java:43 | if every name still to do has a dependent that is also still to do (a round that places nothing), a cycle is reachable from the target |
| DependencyGraph.DependentBefore | src/main/java/com/cavetale/pluginfo/Util.java:49-63 | in the order, a dependent has a smaller index than the name it depends on |
| DependencyGraph.LastIsTarget | src/main/java/com/cavetale/pluginfo/Util.java:33-35 | a dependents-first order made of names reachable from the target ends with the target |
| DependencyGraph.PathGoesEarlier | src/main/java/com/cavetale/pluginfo/Util.java:49-63 | the far end of a walk from a name of the order occurs earlier in the order |
| DependencyGraph.ClosedContainsReachable | src/main/java/com/cavetale/pluginfo/Util.java:53-57 | a set holding the target and closed under dependents holds every reachable name |
| DependencyGraph.EmptyEntrySameWalks | src/main/java/com/cavetale/pluginfo/PlugInfoCommand.java:146 | the empty entry computeIfAbsent adds changes no edge, walk, reachability or acyclicity |
| Commands.PlugInfoCommand.RegisterCommand | src/main/java/com/cavetale/pluginfo/PlugInfoCommand.java:57-61 | the entry for the name is put, replacing an earlier one, and no other entry changes; a new name goes to the end of the key order and a known name keeps its place |
| Commands.PlugInfoCommand.Enable | src/main/java/com/cavetale/pluginfo/PlugInfoCommand.java:35-47 | the table gains exactly the twelve registrations; from an empty table the key order is the registration order |
| Commands.FreshNamesAppended | src/main/java/com/cavetale/pluginfo/PlugInfoCommand.java:33-47 | registering names that are new and distinct appends them to the key order, in order |
| Commands.PutFromIsUnion | src/main/java/com/cavetale/pluginfo/PlugInfoCommand.java:36-60 | a run of registrations gives the earlier table overridden by the registered entries |
| Commands.PlugInfoCommand.OnCommand | src/main/java/com/cavetale/pluginfo/PlugInfoCommand.java:64-70 | rejected exactly when there is no argument or the lower-cased first argument is not a subcommand name; otherwise that subcommand's handler gets every argument but the first, unchanged |
| Commands.OnCommandIgnoresCase | src/main/java/com/cavetale/pluginfo/PlugInfoCommand.java:66 | dispatch is the same whatever the case of the first argument |
| Commands.PlugInfoCommand.OnTabComplete | src/main/java/com/cavetale/pluginfo/PlugInfoCommand.java:73-87 | null exactly when there is no argument; for one argument, the subcommand names that contain it, in key order; for more, an empty list when the first argument (not lower-cased) names no subcommand or has no completer at position length-2, else the installed plugin names that contain the last argument, in registry order |
| Commands.Complete | src/main/java/com/cavetale/pluginfo/PlugInfoCommand.java:89-94 | completePlugins keeps exactly the plugin names that contain the argument, in their order |
| Commands.CompletedNameDispatches | src/main/java/com/cavetale/pluginfo/PlugInfoCommand.java:66-78 | a lower-case name offered by completion dispatches to its own handler |
| Commands.EnabledNamesAreLowerCase | src/main/java/com/cavetale/pluginfo/PlugInfoCommand.java:36-47 | every registered name is in lower case |
| Commands.TabCompletionIsCaseSensitive | src/main/java/com/cavetale/pluginfo/PlugInfoCommand.java:66-80 | after enable, "DEPEND x" runs depend, yet completing it offers nothing, while "depend x" offers the matching plugins |
| Subcommands.Depend | src/main/java/com/cavetale/pluginfo/PlugInfoCommand.java:137-153 | usage exactly for a wrong number of arguments; not found exactly for an unknown plugin; otherwise the direct dependents are the plugins declaring the target, and the depending list holds each transitive dependent once, a name before those that depend on it; the count is its length and includes every direct dependent |
| Subcommands.GraphWithEntry | src/main/java/com/cavetale/pluginfo/PlugInfoCommand.java:145-146 | the target gets an (empty) entry only when it had none, and the part reachable from it stays acyclic |
| Subcommands.ReportFacts | src/main/java/com/cavetale/pluginfo/PlugInfoCommand.java:146-151 | the facts findPluginDependencies gives on the extended graph carry over to the report |
| Subcommands.DependingListFacts | src/main/java/com/cavetale/pluginfo/PlugInfoCommand.java:148-151 | the depending list has no duplicate, holds exactly the transitive dependents, and lists a name before those that depend on it |
| Subcommands.DirectAreDepending | src/main/java/com/cavetale/pluginfo/PlugInfoCommand.java:146-151 | a direct dependent is a transitive dependent other than the target |
| Subcommands.DependentsAreInstalled | src/main/java/com/cavetale/pluginfo/Util.java:19-22 | every name in a graph entry is an installed plugin |
| Subcommands.Reload | src/main/java/com/cavetale/pluginfo/PlugInfoCommand.java:248-267 | usage and not-found as for depend; otherwise the order ends with the target and holds exactly its transitive dependents; the dispatched commands unload the order then load it in reverse; no step unloads a plugin a loaded plugin depends on or loads one before an installed plugin it depends on; the end state is the start state |
| Subcommands.DispatchUnloads | src/main/java/com/cavetale/pluginfo/PlugInfoCommand.java:258-260 | one unload per name of the order, in order |
| Subcommands.DispatchLoads | src/main/java/com/cavetale/pluginfo/PlugInfoCommand.java:261-264 | one load per name of the order, last name first |
| Subcommands.ReloadIsSafe | src/main/java/com/cavetale/pluginfo/PlugInfoCommand.java:256-264 | for an order with no duplicate, dependents first and closed under dependents: unloading it then loading it back in reverse is safe at every step and restores the loaded set |
| Subcommands.OrderFacts | src/main/java/com/cavetale/pluginfo/PlugInfoCommand.java:256 | the order findPluginDependencies returns is closed under dependents and made of installed plugins |
| Subcommands.UnloadIsSafe | src/main/java/com/cavetale/pluginfo/PlugInfoCommand.java:258-260 | once the earlier names are unloaded, nothing still loaded depends on the next |
| Subcommands.LoadIsSafe | src/main/java/com/cavetale/pluginfo/PlugInfoCommand.java:261-264 | once the later names are loaded back, every installed plugin the next one depends on is loaded |
| Subcommands.UnloadPhase | src/main/java/com/cavetale/pluginfo/PlugInfoCommand.java:258-260 | every unload of the first loop is safe |
| Subcommands.LoadPhase | src/main/java/com/cavetale/pluginfo/PlugInfoCommand.java:261-264 | every load of the second loop is safe |
| Subcommands.UnloadsRun | src/main/java/com/cavetale/pluginfo/PlugInfoCommand.java:258-260 | unloading a list removes exactly its names |
| Subcommands.LoadsRun | src/main/java/com/cavetale/pluginfo/PlugInfoCommand.java:261-264 | loading a list back adds exactly its names |
| Subcommands.RunAppend | src/main/java/com/cavetale/pluginfo/PlugInfoCommand.java:258-264 | running two command lists one after the other is running their concatenation, and is safe exactly when both parts are |
| DotGraph.Graph | src/main/java/com/cavetale/pluginfo/PlugInfoCommand.java:269-282 | usage exactly when arguments are given; otherwise the lines open with "digraph {" and close with "}"; in between come the groups of the keys, sorted by non-increasing entry size, each listing "X -> N" for every X in the entry of N; a line is there exactly when it is the line of an edge |
| DotGraph.GraphLinesAreDeclarations | src/main/java/com/cavetale/pluginfo/PlugInfoCommand.java:271-281 | a line "X -> N" is there exactly when plugin X declares N as a dependency |
| DotGraph.EdgeLinesAreEdges | src/main/java/com/cavetale/pluginfo/PlugInfoCommand.java:277-281 | when the groups enumerate the graph, the edge lines are exactly the lines of its edges |
| DotGraph.EdgeLinesMembership | src/main/java/com/cavetale/pluginfo/PlugInfoCommand.java:277-281 | a line of the body is the edge line of some member of some group |
| DotGraph.SortBySize | src/main/java/com/cavetale/pluginfo/PlugInfoCommand.java:274-276 | the sorted names are a permutation of the key list, in non-increasing order of entry size |
| DotGraph.InsertSorted | src/main/java/com/cavetale/pluginfo/PlugInfoCommand.java:274-276 | inserting into a sorted list keeps it sorted |
| DotGraph.PermutationKeepsElems | src/main/java/com/cavetale/pluginfo/PlugInfoCommand.java:274-276 | sorting the duplicate-free key list keeps it duplicate-free, with the same names |
| DotGraph.KeyList | src/main/java/com/cavetale/pluginfo/PlugInfoCommand.java:274 | the list holds every key once |
| DotGraph.AddGroup | src/main/java/com/cavetale/pluginfo/PlugInfoCommand.java:278-280 | one line per dependent of the name, each dependent once |
| DotGraph.AddGroups | src/main/java/com/cavetale/pluginfo/PlugInfoCommand.java:277-281 | the groups of all names, name after name, each group listing exactly that name's entry |

## Left out

- Bukkit access is not modelled:
  - The plugin manager's `getPlugins` becomes an explicit registry snapshot (`seq<PluginDescription>`).
  - `getPlugin(arg)` is an exact name match in that snapshot. The source keys the `computeIfAbsent` entry and the direct-dependents copy by `arg` (PlugInfoCommand.java:146) but starts the search from `plugin.getName()` (PlugInfoCommand.java:147, 256); because the match is exact, the model treats the two as the same name.
  - `sendMessage` output becomes the returned outcome.
  - `dispatchCommand("plugman …")` becomes a returned `ConsoleCommand` list. What PlugMan then does is given only by `Run`, which maps an unload to removal from, and a load to addition to, the loaded set.
- The `list`, `dump`, `author`, `nauthor`, `permission`, `command` and `api` handlers are not modelled. They are direct reads and prints of host registries, and are only registered in the table.
- `listen` is not modelled because it works by reflection.
- `syncCommands` and its handler (PlugInfoCommand.java:265, 295-308) are not modelled because they are a reflective server call.
- In `graph`, the write of the lines to PlugInfoGraph.txt and its IOException path are not modelled. Only the produced lines are.
- In `enable`, `getCommand("pluginfo").setExecutor(this)` is not modelled because it registers with the server.
- `PlugInfoPlugin.java` is not part of this model. It is lifecycle glue only.
- HashSet and HashMap iteration order is not fixed: names are picked with `:|`. So the order of names placed in the same round, the order inside a group of `graph`, and the order of equal-size groups are left unspecified.
- Util.FindPluginDependencies: requires that no cycle be reachable from the target, a plugin depending on itself included. The source has no guard for that case. DependencyGraph.StuckMeansCycle proves that a round without progress implies a reachable cycle; the converse, that the source then never ends, is not proved.
- Util.BuildDependedGraph: the callers pass a boolean (PlugInfoCommand.java:145, 256, 271) that the parameterless Util.java version does not take. The model follows the parameterless version and gives the boolean no meaning.
- Seqs.ToLower: lower-cases only the ASCII letters A-Z; Java's locale- and Unicode-aware `toLowerCase` is not modelled.
- DotGraph.SortBySize: `Collections.sort` is a stable merge sort, and the model's insertion sort is stable too. Stability is not stated, because the order of the incoming key list is itself unspecified.
- The "depending" list of `depend`: the code drops the target and reverses the order (PlugInfoCommand.java:148-149), so each name comes before the names that depend on it, as Subcommands.DependingListFacts proves. Along a chain of dependents this runs from the nearest to the most distant, but a direct dependent with no dependents of its own can come last.
