/**
 The start-up loop of main.py: every directory entry ending in ".py" is
 imported as a plugin module, each name in the module's `commands` list gets a
 command handler bound to the module's `handle`, and a module that defines
 `callback` gets one catch-all callback handler. The loop has no exception
 boundary, so the first import or attribute error ends start-up.
 */
module Loader {
  import opened Wrappers
  import opened Lines
  import opened Telegram

  const PluginSuffix: string := ".py"

  /** What start-up can observe of an imported module: its `commands` list
      (absent when the module defines none) and whether it defines `handle`
      and `callback`. */
  datatype PluginModule = PluginModule(commands: Option<seq<string>>, hasHandle: bool, hasCallback: bool)

  /** Why start-up stops: the import fails, or an attribute the loop reads is missing. */
  datatype LoadError =
    | ImportFailed(name: string)
    | NoCommands(name: string)
    | NoHandle(name: string)

  /** `filename.endswith(".py")`. */
  predicate IsPluginFile(filename: string)
  {
    EndsWith(filename, PluginSuffix)
  }

  /** `filename[:-3]`: the module name of a plugin file. */
  function ModuleName(filename: string): (name: string)
    requires IsPluginFile(filename)
    ensures name + PluginSuffix == filename
    ensures |name| == |filename| - 3
  {
    filename[..|filename| - 3]
  }

  /** Two different plugin files never share a module name. */
  lemma ModuleNameInjective(f: string, g: string)
    requires IsPluginFile(f) && IsPluginFile(g)
    requires ModuleName(f) == ModuleName(g)
    ensures f == g
  {
  }

  /** One command registration per name, in list order, all bound to the module's `handle`. */
  function CommandRegistrations(name: string, commands: seq<string>): (regs: seq<Registration>)
    ensures |regs| == |commands|
    ensures forall i :: 0 <= i < |commands| ==> regs[i] == OnCommand(commands[i], ModuleHandle(name))
  {
    if |commands| == 0 then []
    else CommandRegistrations(name, commands[..|commands| - 1])
         + [OnCommand(commands[|commands| - 1], ModuleHandle(name))]
  }

  /** The registrations for one imported module, or the error that stops start-up.
      `module.handle` is only read when there is a command to bind it to. */
  function LoadModule(name: string, modules: map<string, PluginModule>): (r: Result<seq<Registration>, LoadError>)
    ensures r.Success? <==> name in modules && modules[name].commands.Some?
                            && (|modules[name].commands.value| > 0 ==> modules[name].hasHandle)
    ensures r.Success? ==>
              var m := modules[name];
              |r.value| == |m.commands.value| + (if m.hasCallback then 1 else 0)
              && (forall i :: 0 <= i < |m.commands.value| ==>
                    r.value[i] == OnCommand(m.commands.value[i], ModuleHandle(name)))
              && (m.hasCallback ==> r.value[|r.value| - 1] == OnCallback(ModuleCallback(name), AnyPayload))
  {
    if name !in modules then Failure(ImportFailed(name))
    else
      var m := modules[name];
      match m.commands
      case None => Failure(NoCommands(name))
      case Some(commands) =>
        if |commands| > 0 && !m.hasHandle then Failure(NoHandle(name))
        else
          Success(CommandRegistrations(name, commands)
                  + (if m.hasCallback then [OnCallback(ModuleCallback(name), AnyPayload)] else []))
  }

  /** The loop over a directory listing: registrations of every plugin file in
      listing order, or the first error. */
  function LoadAll(listing: seq<string>, modules: map<string, PluginModule>): Result<seq<Registration>, LoadError>
  {
    if |listing| == 0 then Success([])
    else
      match LoadAll(listing[..|listing| - 1], modules)
      case Failure(e) => Failure(e)
      case Success(earlier) =>
        var f := listing[|listing| - 1];
        if !IsPluginFile(f) then Success(earlier)
        else
          match LoadModule(ModuleName(f), modules)
          case Failure(e) => Failure(e)
          case Success(regs) => Success(earlier + regs)
  }

  /** Start-up gets through the loop exactly when every ".py" entry names a
      module that imports and has the attributes the loop reads; other entries
      are ignored. */
  lemma {:induction false} LoadAllSucceeds(listing: seq<string>, modules: map<string, PluginModule>)
    ensures LoadAll(listing, modules).Success? <==>
            forall i :: 0 <= i < |listing| && IsPluginFile(listing[i]) ==>
              LoadModule(ModuleName(listing[i]), modules).Success?
  {
    if |listing| > 0 {
      var prefix := listing[..|listing| - 1];
      LoadAllSucceeds(prefix, modules);
      assert forall i :: 0 <= i < |prefix| ==> prefix[i] == listing[i];
    }
  }

  /** The module names of the ".py" entries of a listing, in listing order. */
  function PluginNames(listing: seq<string>): seq<string>
  {
    if |listing| == 0 then []
    else
      var f := listing[|listing| - 1];
      PluginNames(listing[..|listing| - 1]) + (if IsPluginFile(f) then [ModuleName(f)] else [])
  }

  /** A name that no ".py" entry yields is not among the plugin names. */
  lemma {:induction false} NotAPluginName(listing: seq<string>, name: string)
    requires forall i :: 0 <= i < |listing| && IsPluginFile(listing[i]) ==> ModuleName(listing[i]) != name
    ensures name !in PluginNames(listing)
  {
    if |listing| > 0 {
      var prefix := listing[..|listing| - 1];
      assert forall i :: 0 <= i < |prefix| ==> prefix[i] == listing[i];
      NotAPluginName(prefix, name);
    }
  }

  /** Every registration belongs to one of the listed plugin modules. */
  predicate FromListing(regs: seq<Registration>, listing: seq<string>)
  {
    forall k :: 0 <= k < |regs| ==> HandlerModule(regs[k]).Some? && HandlerModule(regs[k]).value in PluginNames(listing)
  }

  /** The module a plugin registration's handler belongs to. */
  function HandlerModule(reg: Registration): Option<string>
  {
    match reg.handler
    case ModuleHandle(n) => Some(n)
    case ModuleCallback(n) => Some(n)
    case _ => None
  }

  /** Every registration the loop makes belongs to the module of a ".py" entry. */
  lemma {:induction false} LoadAllFromListing(listing: seq<string>, modules: map<string, PluginModule>)
    requires LoadAll(listing, modules).Success?
    ensures FromListing(LoadAll(listing, modules).value, listing)
  {
    if |listing| > 0 {
      var prefix := listing[..|listing| - 1];
      LoadAllFromListing(prefix, modules);
      var earlier := LoadAll(prefix, modules).value;
      var f := listing[|listing| - 1];
      var names := PluginNames(listing);
      assert forall n :: n in PluginNames(prefix) ==> n in names;
      if IsPluginFile(f) {
        var block := LoadModule(ModuleName(f), modules).value;
        ModuleRegistrationsOwned(ModuleName(f), modules);
        assert ModuleName(f) in names;
        var all := earlier + block;
        assert LoadAll(listing, modules).value == all;
        forall k | 0 <= k < |all|
          ensures HandlerModule(all[k]).Some? && HandlerModule(all[k]).value in names
        {
          if k < |earlier| {
            assert all[k] == earlier[k];
          } else {
            assert all[k] == block[k - |earlier|];
          }
        }
      } else {
        assert LoadAll(listing, modules).value == earlier;
      }
    }
  }

  /** Every registration made for one module is bound to that module. */
  lemma ModuleRegistrationsOwned(name: string, modules: map<string, PluginModule>)
    requires LoadModule(name, modules).Success?
    ensures forall k :: 0 <= k < |LoadModule(name, modules).value| ==>
              HandlerModule(LoadModule(name, modules).value[k]) == Some(name)
  {
  }

  /** The command names registered for module `name`, in registration order. */
  function CommandsOf(regs: seq<Registration>, name: string): seq<string>
  {
    if |regs| == 0 then []
    else
      var last := regs[|regs| - 1];
      CommandsOf(regs[..|regs| - 1], name)
      + (if last.OnCommand? && last.handler == ModuleHandle(name) then [last.command] else [])
  }

  /** The number of callback handlers registered for module `name`. */
  function CallbacksOf(regs: seq<Registration>, name: string): nat
  {
    if |regs| == 0 then 0
    else
      var last := regs[|regs| - 1];
      CallbacksOf(regs[..|regs| - 1], name)
      + (if last.OnCallback? && last.handler == ModuleCallback(name) then 1 else 0)
  }

  lemma {:induction false} OwnedAppend(a: seq<Registration>, b: seq<Registration>, name: string)
    ensures CommandsOf(a + b, name) == CommandsOf(a, name) + CommandsOf(b, name)
    ensures CallbacksOf(a + b, name) == CallbacksOf(a, name) + CallbacksOf(b, name)
  {
    if |b| > 0 {
      var ab := a + b;
      assert ab[..|ab| - 1] == a + b[..|b| - 1];
      OwnedAppend(a, b[..|b| - 1], name);
    } else {
      assert a + b == a;
    }
  }

  /** Registrations bound to no handler of `name` contribute nothing to it. */
  lemma {:induction false} NotOwned(regs: seq<Registration>, name: string)
    requires forall k :: 0 <= k < |regs| ==> HandlerModule(regs[k]) != Some(name)
    ensures CommandsOf(regs, name) == [] && CallbacksOf(regs, name) == 0
  {
    if |regs| > 0 {
      NotOwned(regs[..|regs| - 1], name);
    }
  }

  lemma {:induction false} CommandRegistrationsOwned(name: string, commands: seq<string>)
    ensures CommandsOf(CommandRegistrations(name, commands), name) == commands
    ensures CallbacksOf(CommandRegistrations(name, commands), name) == 0
  {
    if |commands| > 0 {
      var prefix := commands[..|commands| - 1];
      CommandRegistrationsOwned(name, prefix);
      var regs := CommandRegistrations(name, commands);
      assert regs[..|regs| - 1] == CommandRegistrations(name, prefix);
      assert prefix + [commands[|commands| - 1]] == commands;
    }
  }

  /** A module's own block registers its command list exactly, and one callback
      handler when it defines `callback`, none otherwise. */
  lemma ModuleBlockCounts(name: string, modules: map<string, PluginModule>)
    requires LoadModule(name, modules).Success?
    ensures CommandsOf(LoadModule(name, modules).value, name) == modules[name].commands.value
    ensures CallbacksOf(LoadModule(name, modules).value, name) == if modules[name].hasCallback then 1 else 0
  {
    var m := modules[name];
    var cmds := CommandRegistrations(name, m.commands.value);
    var tail: seq<Registration> := if m.hasCallback then [OnCallback(ModuleCallback(name), AnyPayload)] else [];
    assert LoadModule(name, modules).value == cmds + tail;
    CommandRegistrationsOwned(name, m.commands.value);
    OwnedAppend(cmds, tail, name);
    if m.hasCallback {
      assert tail[..0] == [];
    }
  }

  /** No plugin file of the listing names a module that defines `callback`. */
  predicate NoPluginCallback(listing: seq<string>, modules: map<string, PluginModule>)
  {
    forall i :: 0 <= i < |listing| && IsPluginFile(listing[i]) && ModuleName(listing[i]) in modules ==>
      !modules[ModuleName(listing[i])].hasCallback
  }

  /** No registration is a callback handler. */
  predicate NoCallbacks(regs: seq<Registration>)
  {
    forall k :: 0 <= k < |regs| ==> !regs[k].OnCallback?
  }

  /** Every callback handler is a plugin's catch-all one. */
  predicate CatchAllCallbacks(regs: seq<Registration>)
  {
    forall k :: 0 <= k < |regs| && regs[k].OnCallback? ==>
      regs[k].handler.ModuleCallback? && regs[k].filter == AnyPayload
  }

  lemma CallbacksAppend(a: seq<Registration>, b: seq<Registration>)
    ensures NoCallbacks(a + b) <==> NoCallbacks(a) && NoCallbacks(b)
    ensures CatchAllCallbacks(a) && CatchAllCallbacks(b) ==> CatchAllCallbacks(a + b)
  {
    assert forall k :: 0 <= k < |a| ==> (a + b)[k] == a[k];
    assert forall k :: 0 <= k < |b| ==> (a + b)[|a| + k] == b[k];
  }

  /** A module's block holds a callback handler exactly when the module
      defines `callback`, and that handler is its catch-all one. */
  lemma ModuleBlockCallbacks(name: string, modules: map<string, PluginModule>)
    requires LoadModule(name, modules).Success?
    ensures NoCallbacks(LoadModule(name, modules).value) <==> !modules[name].hasCallback
    ensures CatchAllCallbacks(LoadModule(name, modules).value)
  {
  }

  /** Adding one listing entry adds a plugin callback only when the entry is a
      plugin file whose module defines `callback`. */
  lemma NoPluginCallbackSnoc(listing: seq<string>, modules: map<string, PluginModule>)
    requires |listing| > 0
    ensures var f := listing[|listing| - 1];
      NoPluginCallback(listing, modules)
      <==> NoPluginCallback(listing[..|listing| - 1], modules)
           && !(IsPluginFile(f) && ModuleName(f) in modules && modules[ModuleName(f)].hasCallback)
  {
  }

  /** The only callback handlers the loop registers are the plugins' catch-all
      ones, and there is one exactly when some plugin defines `callback`. */
  lemma {:induction false} LoadAllCallbacks(listing: seq<string>, modules: map<string, PluginModule>)
    requires LoadAll(listing, modules).Success?
    ensures CatchAllCallbacks(LoadAll(listing, modules).value)
    ensures NoCallbacks(LoadAll(listing, modules).value) <==> NoPluginCallback(listing, modules)
  {
    if |listing| > 0 {
      var prefix := listing[..|listing| - 1];
      var f := listing[|listing| - 1];
      LoadAllCallbacks(prefix, modules);
      NoPluginCallbackSnoc(listing, modules);
      var earlier := LoadAll(prefix, modules).value;
      if IsPluginFile(f) {
        var regs := LoadModule(ModuleName(f), modules).value;
        assert LoadAll(listing, modules).value == earlier + regs;
        ModuleBlockCallbacks(ModuleName(f), modules);
        CallbacksAppend(earlier, regs);
      }
    }
  }

  /** The loop only appends: what it has registered after the first `k`
      entries comes first in what it registers for the whole listing. */
  lemma {:induction false} LoadAllPrefix(listing: seq<string>, modules: map<string, PluginModule>, k: nat)
    requires k <= |listing|
    requires LoadAll(listing, modules).Success?
    ensures LoadAll(listing[..k], modules).Success?
    ensures LoadAll(listing[..k], modules).value <= LoadAll(listing, modules).value
    decreases |listing|
  {
    if k < |listing| {
      var prefix := listing[..|listing| - 1];
      LoadAllPrefix(prefix, modules, k);
      assert prefix[..k] == listing[..k];
    } else {
      assert listing[..k] == listing;
    }
  }

  /** One more ".py" entry appends its module's block. */
  lemma LoadAllStep(listing: seq<string>, modules: map<string, PluginModule>, i: nat)
    requires i < |listing| && IsPluginFile(listing[i])
    requires LoadAll(listing[..i + 1], modules).Success?
    ensures LoadAll(listing[..i], modules).Success?
    ensures LoadModule(ModuleName(listing[i]), modules).Success?
    ensures LoadAll(listing[..i + 1], modules).value
            == LoadAll(listing[..i], modules).value + LoadModule(ModuleName(listing[i]), modules).value
  {
    assert listing[..i + 1][..i] == listing[..i];
  }

  /** When the loop stops, it stops with the error of the first ".py" entry
      whose module does not load; every earlier one loaded. */
  lemma {:induction false} LoadAllFirstError(listing: seq<string>, modules: map<string, PluginModule>)
    requires LoadAll(listing, modules).Failure?
    ensures exists i :: 0 <= i < |listing| && IsPluginFile(listing[i])
              && LoadModule(ModuleName(listing[i]), modules) == Failure(LoadAll(listing, modules).error)
              && forall j :: 0 <= j < i && IsPluginFile(listing[j]) ==> LoadModule(ModuleName(listing[j]), modules).Success?
  {
    var prefix := listing[..|listing| - 1];
    assert forall j :: 0 <= j < |prefix| ==> prefix[j] == listing[j];
    var e := LoadAll(listing, modules).error;
    if LoadAll(prefix, modules).Failure? {
      LoadAllFirstError(prefix, modules);
      var i :| 0 <= i < |prefix| && IsPluginFile(prefix[i])
               && LoadModule(ModuleName(prefix[i]), modules) == Failure(LoadAll(prefix, modules).error)
               && forall j :: 0 <= j < i && IsPluginFile(prefix[j]) ==> LoadModule(ModuleName(prefix[j]), modules).Success?;
      assert listing[i] == prefix[i];
    } else {
      LoadAllSucceeds(prefix, modules);
      var i := |listing| - 1;
      assert IsPluginFile(listing[i]) && LoadModule(ModuleName(listing[i]), modules) == Failure(e);
    }
  }

  /** Entry `i` is a ".py" file whose module defines `callback`. */
  predicate PluginCallbackAt(listing: seq<string>, modules: map<string, PluginModule>, i: nat)
    requires i < |listing|
  {
    IsPluginFile(listing[i]) && ModuleName(listing[i]) in modules && modules[ModuleName(listing[i])].hasCallback
  }

  /** The first ".py" entry whose module defines `callback` owns the first
      callback handler the loop registers. */
  lemma FirstPluginCallback(listing: seq<string>, modules: map<string, PluginModule>, i: nat)
    requires LoadAll(listing, modules).Success?
    requires i < |listing| && PluginCallbackAt(listing, modules, i)
    requires NoPluginCallback(listing[..i], modules)
    ensures var v := LoadAll(listing, modules).value;
      exists k :: 0 <= k < |v| && v[k] == OnCallback(ModuleCallback(ModuleName(listing[i])), AnyPayload)
                  && NoCallbacks(v[..k])
  {
    var name := ModuleName(listing[i]);
    var v := LoadAll(listing, modules).value;
    LoadAllPrefix(listing, modules, i + 1);
    LoadAllStep(listing, modules, i);
    var pre := LoadAll(listing[..i], modules).value;
    var blk := LoadModule(name, modules).value;
    LoadAllCallbacks(listing[..i], modules);
    var cmds := blk[..|blk| - 1];
    assert forall c :: 0 <= c < |cmds| ==> cmds[c].OnCommand?;
    CallbacksAppend(pre, cmds);
    var k := |pre| + |blk| - 1;
    assert (pre + blk)[..k] == pre + cmds;
    assert v[..k] == (pre + blk)[..k];
    assert v[k] == blk[|blk| - 1];
  }

  /** No two entries of a directory listing are equal. */
  predicate DistinctEntries(listing: seq<string>)
  {
    forall i, j :: 0 <= i < j < |listing| ==> listing[i] != listing[j]
  }

  /** For every plugin file of a listing that starts up, the registrations for
      its module are its `commands`, one each and in list order, bound to its
      `handle`, plus exactly one callback handler if it defines `callback` and
      none otherwise. */
  lemma {:induction false} LoadAllPerModule(listing: seq<string>, modules: map<string, PluginModule>, j: nat)
    requires DistinctEntries(listing)
    requires j < |listing| && IsPluginFile(listing[j])
    requires LoadAll(listing, modules).Success?
    ensures ModuleName(listing[j]) in modules
    ensures modules[ModuleName(listing[j])].commands.Some?
    ensures CommandsOf(LoadAll(listing, modules).value, ModuleName(listing[j]))
            == modules[ModuleName(listing[j])].commands.value
    ensures CallbacksOf(LoadAll(listing, modules).value, ModuleName(listing[j]))
            == if modules[ModuleName(listing[j])].hasCallback then 1 else 0
  {
    LoadAllSucceeds(listing, modules);
    var name := ModuleName(listing[j]);
    var prefix := listing[..|listing| - 1];
    var f := listing[|listing| - 1];
    var earlier := LoadAll(prefix, modules).value;
    var all := LoadAll(listing, modules).value;
    if j == |listing| - 1 {
      LoadAllFromListing(prefix, modules);
      forall i | 0 <= i < |prefix| && IsPluginFile(prefix[i])
        ensures ModuleName(prefix[i]) != name
      {
        assert prefix[i] == listing[i] != listing[j];
        if ModuleName(prefix[i]) == name {
          ModuleNameInjective(prefix[i], listing[j]);
        }
      }
      NotAPluginName(prefix, name);
      NotOwned(earlier, name);
      ModuleBlockCounts(name, modules);
      OwnedAppend(earlier, LoadModule(name, modules).value, name);
    } else {
      assert prefix[j] == listing[j];
      LoadAllPerModule(prefix, modules, j);
      if IsPluginFile(f) {
        var other := ModuleName(f);
        var block := LoadModule(other, modules).value;
        assert other != name by {
          if other == name {
            ModuleNameInjective(f, listing[j]);
          }
        }
        ModuleRegistrationsOwned(other, modules);
        NotOwned(block, name);
        OwnedAppend(earlier, block, name);
      }
    }
  }
}
