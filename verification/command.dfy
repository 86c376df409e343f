/**
 The `/pluginfo` command front end of PlugInfoCommand.java: the subcommand
 table (a LinkedHashMap from subcommand name to handler and argument
 completers), the dispatch of a command line to a handler, and tab
 completion. Handlers and completers are named by tags; what the three
 handlers with logic do is in subcommands.dfy and dot.dfy.
 */
module Commands {
  import opened Seqs

  datatype Option<T> = None | Some(value: T)

  /** The handler methods enable() registers, one tag each. */
  datatype Handler =
    | List | Dump | Depend | Author | NAuthor | Listen | Permission
    | Command | Reload | GraphFile | SyncCommands | Api

  /** The one completer enable() registers: completePlugins. */
  datatype Completer = CompletePlugins

  /** An entry of the subcommand table. */
  datatype Subcommand = Subcommand(call: Handler, completers: seq<Completer>)

  /** What onCommand does with a command line: return false itself, or hand
      the remaining arguments to a handler (whose result it returns). */
  datatype Dispatch = Rejected | Invoke(call: Handler, args: seq<string>)

  /** The registrations enable() makes, in order: name, handler, completers. */
  const Registrations: seq<(string, Subcommand)> :=
    [("list", Subcommand(List, [])),
     ("dump", Subcommand(Dump, [CompletePlugins])),
     ("depend", Subcommand(Depend, [CompletePlugins])),
     ("author", Subcommand(Author, [])),
     ("nauthor", Subcommand(NAuthor, [])),
     ("listen", Subcommand(Listen, [])),
     ("permission", Subcommand(Permission, [])),
     ("command", Subcommand(Command, [])),
     ("reload", Subcommand(Reload, [CompletePlugins])),
     ("graph", Subcommand(GraphFile, [])),
     ("synccommands", Subcommand(SyncCommands, [])),
     ("api", Subcommand(Api, []))]

  /** The names of a list of registrations, in order. */
  function RegisteredNames(regs: seq<(string, Subcommand)>): (r: seq<string>)
    ensures |r| == |regs| && forall k :: 0 <= k < |regs| ==> r[k] == regs[k].0
  {
    seq(|regs|, k requires 0 <= k < |regs| => regs[k].0)
  }

  /** The entries of a table after putting registrations k, k + 1, ... in turn. */
  function PutFrom(m: map<string, Subcommand>, regs: seq<(string, Subcommand)>, k: nat): map<string, Subcommand>
    decreases |regs| - k
  {
    if k >= |regs| then m else PutFrom(m[regs[k].0 := regs[k].1], regs, k + 1)
  }

  /** The key order of a LinkedHashMap with entries m and key order names
      after a put of name: a new name is appended, a known one keeps its place. */
  function PutKey(names: seq<string>, m: map<string, Subcommand>, name: string): seq<string>
  {
    if name in m then names else names + [name]
  }

  /** The key order of a LinkedHashMap (entries m, key order names) after
      putting registrations k, k + 1, ... in turn: a name is appended the
      first time it is put, and a repeated put keeps its place. */
  function KeysFrom(names: seq<string>, m: map<string, Subcommand>, regs: seq<(string, Subcommand)>, k: nat): seq<string>
    decreases |regs| - k
  {
    if k >= |regs| then names
    else KeysFrom(PutKey(names, m, regs[k].0), m[regs[k].0 := regs[k].1], regs, k + 1)
  }

  /** Putting registrations overrides the entries of the same names and
      keeps the others. */
  lemma {:induction false} PutFromIsUnion(m: map<string, Subcommand>, t: map<string, Subcommand>,
                                          regs: seq<(string, Subcommand)>, k: nat)
    ensures PutFrom(m + t, regs, k) == m + PutFrom(t, regs, k)
    decreases |regs| - k
  {
    if k < |regs| {
      assert (m + t)[regs[k].0 := regs[k].1] == m + t[regs[k].0 := regs[k].1];
      PutFromIsUnion(m, t[regs[k].0 := regs[k].1], regs, k + 1);
    }
  }

  /** Registrations of distinct names, none of them in the table yet, are
      appended to the key order in registration order. */
  lemma {:induction false} FreshNamesAppended(names: seq<string>, m: map<string, Subcommand>,
                                              regs: seq<(string, Subcommand)>, k: nat)
    requires k <= |regs|
    requires forall j :: k <= j < |regs| ==> regs[j].0 !in m
    requires NoDup(RegisteredNames(regs))
    ensures KeysFrom(names, m, regs, k) == names + RegisteredNames(regs)[k..]
    decreases |regs| - k
  {
    if k < |regs| {
      var rn := RegisteredNames(regs);
      forall j | k + 1 <= j < |regs|
        ensures regs[j].0 !in m[regs[k].0 := regs[k].1]
      {
        assert rn[k] != rn[j];
      }
      FreshNamesAppended(names + [regs[k].0], m[regs[k].0 := regs[k].1], regs, k + 1);
      assert rn[k..] == [rn[k]] + rn[k + 1..];
    }
  }

  /** A key order that lists the keys of an empty table is empty. */
  lemma NoKeysNoNames(names: seq<string>, keys: set<string>)
    requires Elems(names) == keys
    ensures keys == {} ==> names == []
  {
    if names != [] {
      assert names[0] in Elems(names);
    }
  }

  /** Putting registration k is the first step of putting k, k + 1, .... */
  lemma RegisterStep(names: seq<string>, m: map<string, Subcommand>, k: nat, name: string, sub: Subcommand)
    requires k < |Registrations| && Registrations[k] == (name, sub)
    ensures PutFrom(m[name := sub], Registrations, k + 1) == PutFrom(m, Registrations, k)
    ensures KeysFrom(PutKey(names, m, name), m[name := sub], Registrations, k + 1)
            == KeysFrom(names, m, Registrations, k)
  {
  }

  /** The table enable() registers into an empty commandMap. */
  const EnabledTable: map<string, Subcommand> := PutFrom(map[], Registrations, 0)

  /** After putting registrations k, k + 1, ... the keys are the old keys
      and the registered names. */
  lemma {:induction false} PutFromKeys(m: map<string, Subcommand>, regs: seq<(string, Subcommand)>, k: nat, x: string)
    requires k <= |regs|
    ensures x in PutFrom(m, regs, k) <==> x in m || exists j :: k <= j < |regs| && regs[j].0 == x
    decreases |regs| - k
  {
    if k < |regs| {
      PutFromKeys(m[regs[k].0 := regs[k].1], regs, k + 1, x);
      if exists j :: k <= j < |regs| && regs[j].0 == x {
        var j :| k <= j < |regs| && regs[j].0 == x;
        if j > k {
          assert k + 1 <= j < |regs| && regs[j].0 == x;
        }
      }
    }
  }

  /** ... and a registered name has the entry of its last registration. */
  lemma {:induction false} PutFromLast(m: map<string, Subcommand>, regs: seq<(string, Subcommand)>, k: nat, j: nat)
    requires k <= j < |regs|
    requires forall i :: j < i < |regs| ==> regs[i].0 != regs[j].0
    ensures regs[j].0 in PutFrom(m, regs, k) && PutFrom(m, regs, k)[regs[j].0] == regs[j].1
    decreases |regs| - k
  {
    if k < j {
      PutFromLast(m[regs[k].0 := regs[k].1], regs, k + 1, j);
    } else {
      PutFromKept(m[regs[k].0 := regs[k].1], regs, k + 1, regs[k].0);
    }
  }

  /** A name no later registration mentions keeps its entry. */
  lemma {:induction false} PutFromKept(m: map<string, Subcommand>, regs: seq<(string, Subcommand)>, k: nat, x: string)
    requires k <= |regs| && x in m
    requires forall i :: k <= i < |regs| ==> regs[i].0 != x
    ensures x in PutFrom(m, regs, k) && PutFrom(m, regs, k)[x] == m[x]
    decreases |regs| - k
  {
    if k < |regs| {
      PutFromKept(m[regs[k].0 := regs[k].1], regs, k + 1, x);
    }
  }

  /** Registering the twelve entries adds EnabledTable to what was there. */
  lemma EnabledIsUnion(m: map<string, Subcommand>)
    ensures PutFrom(m, Registrations, 0) == m + EnabledTable
  {
    PutFromIsUnion(m, map[], Registrations, 0);
    assert m + map[] == m;
  }

  /** The twelve names enable() registers are distinct, so registering into
      an empty table lists each of them once, in registration order. */
  lemma EnabledNamesFromEmpty()
    ensures KeysFrom([], map[], Registrations, 0) == RegisteredNames(Registrations)
  {
    var rn := RegisteredNames(Registrations);
    assert rn == ["list", "dump", "depend", "author", "nauthor", "listen", "permission", "command", "reload", "graph", "synccommands", "api"];
    FreshNamesAppended([], map[], Registrations, 0);
  }

  /** completePlugins: the names of the installed plugins (given in registry
      order) that contain the argument. */
  function Complete(c: Completer, pluginNames: seq<string>, arg: string): (r: seq<string>)
    ensures forall x :: x in r <==> x in pluginNames && Contains(x, arg)
    ensures IsSubseq(r, pluginNames)
  {
    match c
    case CompletePlugins => FilterContaining(pluginNames, arg)
  }

  class PlugInfoCommand {
    /** The key order of commandMap (a LinkedHashMap keeps first-insertion order). */
    var names: seq<string>
    /** The entries of commandMap. */
    var commands: map<string, Subcommand>

    ghost predicate Valid()
      reads this
    {
      NoDup(names) && Elems(names) == commands.Keys
    }

    constructor ()
      ensures Valid() && names == [] && commands == map[]
    {
      names := [];
      commands := map[];
    }

    /** registerCommand: put the entry for name, replacing an earlier one;
        a new name goes to the end of the key order, a known one keeps its place. */
    method RegisterCommand(name: string, call: Handler, completers: seq<Completer>)
      requires Valid()
      modifies this
      ensures Valid()
      ensures commands == old(commands)[name := Subcommand(call, completers)]
      ensures names == PutKey(old(names), old(commands), name)
    {
      if name !in commands {
        assert name !in Elems(names);
        NoDupAppend(names, [name]);
        ElemsAppend(names, [name]);
        names := names + [name];
      }
      commands := commands[name := Subcommand(call, completers)];
    }

    /** enable: the twelve registrations, in this order. */
    method Enable()
      requires Valid()
      modifies this
      ensures Valid()
      ensures commands == old(commands) + EnabledTable
      ensures names == KeysFrom(old(names), old(commands), Registrations, 0)
      ensures old(commands) == map[] ==> names == RegisteredNames(Registrations)
    {
      ghost var before := commands;
      EnabledNamesFromEmpty();
      NoKeysNoNames(names, commands.Keys);
      RegisterStep(names, commands, 0, "list", Subcommand(List, []));
      RegisterCommand("list", List, []);
      RegisterStep(names, commands, 1, "dump", Subcommand(Dump, [CompletePlugins]));
      RegisterCommand("dump", Dump, [CompletePlugins]);
      RegisterStep(names, commands, 2, "depend", Subcommand(Depend, [CompletePlugins]));
      RegisterCommand("depend", Depend, [CompletePlugins]);
      RegisterStep(names, commands, 3, "author", Subcommand(Author, []));
      RegisterCommand("author", Author, []);
      RegisterStep(names, commands, 4, "nauthor", Subcommand(NAuthor, []));
      RegisterCommand("nauthor", NAuthor, []);
      RegisterStep(names, commands, 5, "listen", Subcommand(Listen, []));
      RegisterCommand("listen", Listen, []);
      RegisterStep(names, commands, 6, "permission", Subcommand(Permission, []));
      RegisterCommand("permission", Permission, []);
      RegisterStep(names, commands, 7, "command", Subcommand(Command, []));
      RegisterCommand("command", Command, []);
      RegisterStep(names, commands, 8, "reload", Subcommand(Reload, [CompletePlugins]));
      RegisterCommand("reload", Reload, [CompletePlugins]);
      RegisterStep(names, commands, 9, "graph", Subcommand(GraphFile, []));
      RegisterCommand("graph", GraphFile, []);
      RegisterStep(names, commands, 10, "synccommands", Subcommand(SyncCommands, []));
      RegisterCommand("synccommands", SyncCommands, []);
      RegisterStep(names, commands, 11, "api", Subcommand(Api, []));
      RegisterCommand("api", Api, []);
      EnabledIsUnion(before);
    }

    /** onCommand: no argument, or a first argument that is not a subcommand
        name once lower-cased, gives false; otherwise the handler gets every
        argument but the first, unchanged. */
    function OnCommand(args: seq<string>): (r: Dispatch)
      reads this
      ensures r == Rejected <==> |args| == 0 || ToLower(args[0]) !in commands
      ensures r.Invoke? ==> r.call == commands[ToLower(args[0])].call
      ensures r.Invoke? ==> |r.args| + 1 == |args| && forall k :: 0 <= k < |r.args| ==> r.args[k] == args[k + 1]
    {
      if |args| == 0 then Rejected
      else
        var cmd := ToLower(args[0]);
        if cmd !in commands then Rejected
        else Invoke(commands[cmd].call, args[1..])
    }

    /** onTabComplete: null for no argument; for one argument the subcommand
        names containing it, in registration order; for more, the completer
        at position |args| - 2 of the subcommand named exactly args[0] (not
        lower-cased) applied to the last argument, or an empty list when
        there is no such subcommand or no such completer. */
    function OnTabComplete(args: seq<string>, pluginNames: seq<string>): (r: Option<seq<string>>)
      requires Valid()
      reads this
      ensures r == None <==> |args| == 0
      ensures |args| == 1 ==> (forall x :: x in r.value <==> x in commands && Contains(x, args[0]))
      ensures |args| == 1 ==> IsSubseq(r.value, names)
      ensures |args| > 1 && (args[0] !in commands || |args| - 2 >= |commands[args[0]].completers|)
              ==> r == Some([])
      ensures |args| > 1 && args[0] in commands && |args| - 2 < |commands[args[0]].completers|
              ==> (forall x :: x in r.value <==> x in pluginNames && Contains(x, args[|args| - 1]))
                  && IsSubseq(r.value, pluginNames)
    {
      if |args| == 1 then
        Some(FilterContaining(names, args[0]))
      else if |args| > 1 then
        if args[0] !in commands then Some([])
        else
          var sub := commands[args[0]];
          var argIndex := |args| - 2;
          if argIndex >= |sub.completers| then Some([])
          else Some(Complete(sub.completers[argIndex], pluginNames, args[|args| - 1]))
      else
        None
    }
  }

  /** The case of the first argument does not matter to onCommand. */
  lemma OnCommandIgnoresCase(c: PlugInfoCommand, args: seq<string>)
    requires |args| > 0
    ensures c.OnCommand(args) == c.OnCommand([ToLower(args[0])] + args[1..])
  {
    ToLowerIdempotent(args[0]);
    assert ([ToLower(args[0])] + args[1..])[1..] == args[1..];
  }

  /** A subcommand name offered by completing the first argument, when it is
      in lower case (as all names enable() registers are), is dispatched by
      onCommand to its handler. */
  lemma CompletedNameDispatches(c: PlugInfoCommand, partial: string, x: string, rest: seq<string>)
    requires c.Valid()
    requires x in c.OnTabComplete([partial], []).value && ToLower(x) == x
    ensures c.OnCommand([x] + rest) == Invoke(c.commands[x].call, rest)
  {
    assert ([x] + rest)[1..] == rest;
  }

  /** Every name enable() registers is in lower case, so each one reaches
      its handler whatever case the player types it in. */
  lemma EnabledNamesAreLowerCase()
    ensures forall n :: n in EnabledTable ==> ToLower(n) == n
  {
    forall n | n in EnabledTable
      ensures ToLower(n) == n
    {
      PutFromKeys(map[], Registrations, 0, n);
      var j :| 0 <= j < |Registrations| && Registrations[j].0 == n;
      RegisteredNameIsLowerCase(j);
    }
  }

  lemma RegisteredNameIsLowerCase(j: nat)
    requires j < |Registrations|
    ensures ToLower(Registrations[j].0) == Registrations[j].0
  {
    var n := Registrations[j].0;
    assert forall k :: 0 <= k < |n| ==> 'a' <= n[k] <= 'z';
    assert forall k :: 0 <= k < |n| ==> LowerChar(n[k]) == n[k];
  }

  /** enable() registers "depend", with the plugin-name completer, and no
      upper-case spelling of it. */
  lemma DependEntry()
    ensures "DEPEND" !in EnabledTable
    ensures "depend" in EnabledTable && EnabledTable["depend"] == Subcommand(Depend, [CompletePlugins])
  {
    var rn := RegisteredNames(Registrations);
    assert rn == ["list", "dump", "depend", "author", "nauthor", "listen", "permission", "command", "reload", "graph", "synccommands", "api"];
    assert "DEPEND" !in EnabledTable by {
      PutFromKeys(map[], Registrations, 0, "DEPEND");
      assert "DEPEND" !in rn;
    }
    assert forall i :: 2 < i < |Registrations| ==> rn[i] != "depend";
    PutFromLast(map[], Registrations, 0, 2);
  }

  /** After enable() the first argument is looked up ignoring case by
      onCommand but exactly by onTabComplete: "DEPEND" runs the depend
      handler, yet completing its second argument offers nothing. */
  lemma TabCompletionIsCaseSensitive(c: PlugInfoCommand, pluginNames: seq<string>, arg: string)
    requires c.Valid() && c.commands == EnabledTable
    ensures c.OnCommand(["DEPEND", arg]) == Invoke(Depend, [arg])
    ensures c.OnTabComplete(["DEPEND", arg], pluginNames) == Some([])
    ensures c.OnTabComplete(["depend", arg], pluginNames) == Some(FilterContaining(pluginNames, arg))
  {
    DependEntry();
    assert ToLower("DEPEND") == "depend";
    assert ["DEPEND", arg][1..] == [arg];
  }
}
