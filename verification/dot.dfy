/**
 The `graph` subcommand of PlugInfoCommand.java: the depended-by graph of
 the installed plugins written as the lines of a Graphviz "digraph", one
 line "X -> N" for every plugin X that depends on N, grouped by N, the
 groups ordered by decreasing number of dependents. The lines are returned;
 writing them to PlugInfoGraph.txt is not modelled.
 */
module DotGraph {
  import opened Seqs
  import opened DependencyGraph
  import opened Util

  /** What `/pluginfo graph` does: return false when given arguments, or
      produce the lines of the file. */
  datatype GraphOutcome = GraphUsage | GraphLines(lines: seq<string>)

  /** The line for the edge "dependedBy depends on name". */
  function EdgeLine(dependedBy: string, name: string): string
  {
    dependedBy + " -> " + name
  }

  /** The number of dependents of a name, the sort key of graph. */
  function Size(g: Graph, name: string): nat
  {
    if name in g then |g[name]| else 0
  }

  /** Names ordered by non-increasing number of dependents. */
  predicate SortedBySize(g: Graph, names: seq<string>)
  {
    forall i, j :: 0 <= i < j < |names| ==> Size(g, names[j]) <= Size(g, names[i])
  }

  /** Insert x in front of the first name with no more dependents than x. */
  function Insert(g: Graph, x: string, s: seq<string>): (r: seq<string>)
    ensures multiset(r) == multiset(s) + multiset{x}
  {
    if s == [] || Size(g, s[0]) <= Size(g, x) then [x] + s
    else
      assert s == [s[0]] + s[1..];
      [s[0]] + Insert(g, x, s[1..])
  }

  lemma {:induction false} InsertSorted(g: Graph, x: string, s: seq<string>)
    requires SortedBySize(g, s)
    ensures SortedBySize(g, Insert(g, x, s))
  {
    if s != [] && Size(g, x) < Size(g, s[0]) {
      var t := s[1..];
      assert SortedBySize(g, t);
      InsertSorted(g, x, t);
      var r := Insert(g, x, s);
      var rt := Insert(g, x, t);
      assert r == [s[0]] + rt;
      forall j | 0 < j < |r|
        ensures Size(g, r[j]) <= Size(g, s[0])
      {
        assert r[j] in multiset(rt);
        assert r[j] == x || r[j] in multiset(t);
        if r[j] != x {
          var k :| 0 <= k < |t| && t[k] == r[j];
          assert t[k] == s[k + 1];
        }
      }
    }
  }

  /** Collections.sort of the key list by the comparator
      (a, b) -> Integer.compare(size(b), size(a)): an insertion sort, which
      like the library's merge sort keeps names of equal size in their
      original order. */
  function SortBySize(g: Graph, names: seq<string>): (r: seq<string>)
    ensures multiset(r) == multiset(names)
    ensures SortedBySize(g, r)
  {
    if names == [] then []
    else
      var rest := SortBySize(g, names[1..]);
      InsertSorted(g, names[0], rest);
      assert names == [names[0]] + names[1..];
      Insert(g, names[0], rest)
  }

  /** A sorted permutation of a duplicate-free list is duplicate-free and
      has the same elements. */
  lemma PermutationKeepsElems(a: seq<string>, b: seq<string>)
    requires multiset(a) == multiset(b) && NoDup(a)
    ensures NoDup(b) && Elems(b) == Elems(a)
  {
    forall x
      ensures x in b <==> x in a
    {
      assert x in b <==> x in multiset(b);
      assert x in a <==> x in multiset(a);
    }
    forall i, j | 0 <= i < j < |b|
      ensures b[i] != b[j]
    {
      if b[i] == b[j] {
        var x := b[i];
        assert multiset(b)[x] >= 2 by {
          assert b == b[..i] + [x] + b[i + 1..j] + [x] + b[j + 1..];
        }
        OnceInNoDup(a, x);
        assert false;
      }
    }
  }

  lemma {:induction false} OnceInNoDup(a: seq<string>, x: string)
    requires NoDup(a)
    ensures multiset(a)[x] <= 1
  {
    if a != [] {
      var t := a[1..];
      assert a == [a[0]] + t;
      assert NoDup(t);
      OnceInNoDup(t, x);
    }
  }

  /** The lines of one group: one edge line per dependent, in the order given. */
  function GroupLines(name: string, group: seq<string>): (r: seq<string>)
    ensures |r| == |group|
  {
    if group == [] then [] else GroupLines(name, group[..|group| - 1]) + [EdgeLine(group[|group| - 1], name)]
  }

  lemma {:induction false} GroupLinesAt(name: string, group: seq<string>, k: int)
    requires 0 <= k < |group|
    ensures GroupLines(name, group)[k] == EdgeLine(group[k], name)
  {
    var n := |group| - 1;
    if k < n {
      GroupLinesAt(name, group[..n], k);
    }
  }

  lemma GroupLinesAppend(name: string, group: seq<string>, x: string)
    ensures GroupLines(name, group + [x]) == GroupLines(name, group) + [EdgeLine(x, name)]
  {
    assert (group + [x])[..|group|] == group;
  }

  /** The lines of all groups, group after group. */
  function EdgeLines(names: seq<string>, groups: seq<seq<string>>): seq<string>
    requires |groups| == |names|
  {
    if names == [] then []
    else EdgeLines(names[..|names| - 1], groups[..|groups| - 1]) + GroupLines(names[|names| - 1], groups[|groups| - 1])
  }

  /** A line of EdgeLines is the edge line of some dependent in some group. */
  lemma {:induction false} EdgeLinesMembership(names: seq<string>, groups: seq<seq<string>>, l: string)
    requires |groups| == |names|
    ensures l in EdgeLines(names, groups) <==>
            exists i, k :: 0 <= i < |names| && 0 <= k < |groups[i]| && l == EdgeLine(groups[i][k], names[i])
  {
    if names != [] {
      var n := |names| - 1;
      var ns, gs := names[..n], groups[..n];
      EdgeLinesMembership(ns, gs, l);
      var own := GroupLines(names[n], groups[n]);
      assert EdgeLines(names, groups) == EdgeLines(ns, gs) + own;
      if l in own {
        var k :| 0 <= k < |own| && own[k] == l;
        GroupLinesAt(names[n], groups[n], k);
      }
      if exists i, k :: 0 <= i < |names| && 0 <= k < |groups[i]| && l == EdgeLine(groups[i][k], names[i]) {
        var i, k :| 0 <= i < |names| && 0 <= k < |groups[i]| && l == EdgeLine(groups[i][k], names[i]);
        if i < n {
          assert ns[i] == names[i] && gs[i] == groups[i];
        } else {
          GroupLinesAt(names[n], groups[n], k);
        }
      }
    }
  }

  /** The names are the keys of the graph and each group lists the entry
      of its name. */
  ghost predicate Enumerates(g: Graph, names: seq<string>, groups: seq<seq<string>>)
  {
    && NoDup(names) && Elems(names) == g.Keys
    && |groups| == |names|
    && forall i :: 0 <= i < |names| ==> NoDup(groups[i]) && Elems(groups[i]) == g[names[i]]
  }

  /** When the groups enumerate the graph, the edge lines are exactly the
      lines of the edges. */
  lemma EdgeLinesAreEdges(g: Graph, names: seq<string>, groups: seq<seq<string>>)
    requires Enumerates(g, names, groups)
    ensures forall l :: l in EdgeLines(names, groups) <==> exists n, x :: Edge(g, n, x) && l == EdgeLine(x, n)
  {
    forall l
      ensures l in EdgeLines(names, groups) <==> exists n, x :: Edge(g, n, x) && l == EdgeLine(x, n)
    {
      EdgeLinesMembership(names, groups, l);
      if exists n, x :: Edge(g, n, x) && l == EdgeLine(x, n) {
        var n, x :| Edge(g, n, x) && l == EdgeLine(x, n);
        var i :| 0 <= i < |names| && names[i] == n;
        assert x in Elems(groups[i]);
        var k :| 0 <= k < |groups[i]| && groups[i][k] == x;
        assert l == EdgeLine(groups[i][k], names[i]);
      }
      if l in EdgeLines(names, groups) {
        var i, k :| 0 <= i < |names| && 0 <= k < |groups[i]| && l == EdgeLine(groups[i][k], names[i]);
        assert groups[i][k] in Elems(groups[i]);
        assert names[i] in Elems(names);
        assert Edge(g, names[i], groups[i][k]);
      }
    }
  }

  /** Moving one element of a set into a duplicate-free list that
      enumerates the rest of the set. */
  lemma EnumerationStep(listed: seq<string>, rest: set<string>, all: set<string>, x: string)
    requires NoDup(listed) && Elems(listed) !! rest && Elems(listed) + rest == all
    requires x in rest
    ensures NoDup(listed + [x]) && Elems(listed + [x]) !! rest - {x} && Elems(listed + [x]) + (rest - {x}) == all
    ensures |rest - {x}| < |rest|
  {
    NoDupAppend(listed, [x]);
    ElemsAppend(listed, [x]);
  }

  /** new ArrayList<>(graph.keySet()): the keys in the map's iteration
      order, which is left unspecified. */
  method KeyList(g: Graph) returns (names: seq<string>)
    ensures NoDup(names) && Elems(names) == g.Keys
  {
    names := [];
    var rest := g.Keys;
    while rest != {}
      invariant NoDup(names)
      invariant Elems(names) !! rest && Elems(names) + rest == g.Keys
      decreases |rest|
    {
      var x :| x in rest;
      EnumerationStep(names, rest, g.Keys, x);
      names := names + [x];
      rest := rest - {x};
    }
  }

  /** The inner loop of graph: one line per dependent of name, in the
      set's iteration order, which is left unspecified. */
  method AddGroup(lines: seq<string>, name: string, dependents: set<string>)
    returns (lines': seq<string>, ghost group: seq<string>)
    ensures NoDup(group) && Elems(group) == dependents
    ensures lines' == lines + GroupLines(name, group)
  {
    var added: seq<string> := [];
    group := [];
    var rest := dependents;
    while rest != {}
      invariant NoDup(group) && Elems(group) !! rest && Elems(group) + rest == dependents
      invariant added == GroupLines(name, group)
      decreases |rest|
    {
      var x :| x in rest;
      EnumerationStep(group, rest, dependents, x);
      GroupLinesAppend(name, group, x);
      added := added + [EdgeLine(x, name)];
      group := group + [x];
      rest := rest - {x};
    }
    lines' := lines + added;
  }

  /** graph. Without arguments: the first line opens the digraph and the
      last closes it; in between come the edge lines of the depended-by
      graph, grouped by the name depended on, the groups in non-increasing
      order of size, and a line is there exactly when it is the line of an
      edge. */
  method Graph(registry: seq<PluginDescription>, args: seq<string>)
    returns (r: GraphOutcome, ghost names: seq<string>, ghost groups: seq<seq<string>>)
    ensures r == GraphUsage <==> args != []
    ensures r.GraphLines? ==>
              && |r.lines| >= 2 && r.lines[0] == "digraph {" && r.lines[|r.lines| - 1] == "}"
              && Enumerates(DependedGraph(registry), names, groups)
              && SortedBySize(DependedGraph(registry), names)
              && r.lines == ["digraph {"] + EdgeLines(names, groups) + ["}"]
              && (forall l :: l in EdgeLines(names, groups) <==>
                    exists n, x :: Edge(DependedGraph(registry), n, x) && l == EdgeLine(x, n))
  {
    names, groups := [], [];
    if args != [] {
      return GraphUsage, names, groups;
    }
    var dependedGraph := BuildDependedGraph(registry);
    var lines := ["digraph {"];
    var keys := KeyList(dependedGraph);
    var sorted := SortBySize(dependedGraph, keys);
    PermutationKeepsElems(keys, sorted);
    lines, groups := AddGroups(lines, dependedGraph, sorted);
    names := sorted;
    lines := lines + ["}"];
    r := GraphLines(lines);
    EdgeLinesAreEdges(dependedGraph, names, groups);
  }

  /** The outer loop of graph: the lines of each name's group, name after name. */
  method AddGroups(lines: seq<string>, g: Graph, names: seq<string>)
    returns (lines': seq<string>, ghost groups: seq<seq<string>>)
    requires Elems(names) <= g.Keys
    ensures |groups| == |names|
    ensures forall j :: 0 <= j < |names| ==> NoDup(groups[j]) && Elems(groups[j]) == g[names[j]]
    ensures lines' == lines + EdgeLines(names, groups)
  {
    var added: seq<string> := [];
    groups := [];
    for i := 0 to |names|
      invariant |groups| == i
      invariant forall j :: 0 <= j < i ==> NoDup(groups[j]) && Elems(groups[j]) == g[names[j]]
      invariant added == EdgeLines(names[..i], groups)
    {
      assert names[i] in Elems(names);
      ghost var group;
      added, group := AddGroup(added, names[i], g[names[i]]);
      EdgeLinesAppend(names, groups, group, i);
      groups := groups + [group];
    }
    assert names[..|names|] == names;
    lines' := lines + added;
  }

  lemma EdgeLinesAppend(names: seq<string>, groups: seq<seq<string>>, group: seq<string>, i: nat)
    requires i < |names| && |groups| == i
    ensures EdgeLines(names[..i], groups) + GroupLines(names[i], group)
            == EdgeLines(names[..i + 1], groups + [group])
  {
    assert names[..i + 1][..i] == names[..i] && (groups + [group])[..i] == groups;
  }

  /** Read against the registry: a line "X -> N" appears exactly when X
      declares N as a mandatory or optional dependency. */
  lemma GraphLinesAreDeclarations(registry: seq<PluginDescription>, names: seq<string>, groups: seq<seq<string>>)
    requires Enumerates(DependedGraph(registry), names, groups)
    ensures forall l :: l in EdgeLines(names, groups) <==>
              exists n, x :: DependsOn(registry, x, n) && l == EdgeLine(x, n)
  {
    var g := DependedGraph(registry);
    EdgeLinesAreEdges(g, names, groups);
    DependedGraphEntries(registry);
    forall l | l in EdgeLines(names, groups)
      ensures exists n, x :: DependsOn(registry, x, n) && l == EdgeLine(x, n)
    {
      var n, x :| Edge(g, n, x) && l == EdgeLine(x, n);
      assert DependsOn(registry, x, n);
    }
    forall n, x | DependsOn(registry, x, n)
      ensures EdgeLine(x, n) in EdgeLines(names, groups)
    {
      assert Edge(g, n, x);
    }
  }
}
