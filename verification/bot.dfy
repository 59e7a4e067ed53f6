/**
 The core handlers of main.py: the `/start` reply with its two-button menu,
 the menu's callback, which answers the query and then shows the info or
 feature-list page, and the order in which start-up registers everything.
 Neither handler has an exception boundary: a failing call ends it silently.
 */
module Bot {
  import opened Wrappers
  import opened Telegram
  import opened Patterns
  import opened Loader
  import Hack

  /** One row: "Info" (payload "info") then "Help" (payload "help"). */
  const StartMenu: Keyboard := [[CallbackButton(InfoLabel, InfoToken), CallbackButton(HelpLabel, HelpToken)]]

  function StartPlan(): Plan
  {
    Plan([Reply(Notice(Welcome), None, Some(StartMenu))], false)
  }

  /** `/start`: the welcome reply carrying the start menu, whose two payloads
      are both accepted by the start-menu pattern and never by the hack
      plugin's. Which handler receives them is `StartMenuDispatch`. */
  function StartTrace(fault: Fault): (t: seq<Action>)
    requires FaultFits(StartPlan(), fault)
    ensures |t| == 1 && t[0].Reply? && t[0].text == Notice(Welcome)
    ensures t[0].markup.Some? && |t[0].markup.value| == 1 && |t[0].markup.value[0]| == 2
    ensures t[0].markup.value[0][0].CallbackButton? && t[0].markup.value[0][0].data == "info"
    ensures t[0].markup.value[0][1].CallbackButton? && t[0].markup.value[0][1].data == "help"
    ensures forall b :: 0 <= b < 2 ==>
              Accepts(CoreTokens, t[0].markup.value[0][b].data)
              && !Accepts(HackHelpToken, t[0].markup.value[0][b].data)
    ensures Count(Reports, t) == 0
  {
    var t := Perform(StartPlan(), fault, false);
    assert t == StartPlan().calls;
    t
  }

  /** The page the start-menu callback shows for a payload, if any. */
  function CorePage(data: string): seq<Action>
  {
    if data == InfoToken then [Edit(Notice(InfoText), None)]
    else if data == HelpToken then [Edit(Notice(FeatureList), None)]
    else []
  }

  function CorePlan(data: string): Plan
  {
    Plan([Answer] + CorePage(data), false)
  }

  /** `handle_start_callback`: the query is answered exactly once, first; then
      "info" shows the info page, "help" the feature list, and any other
      payload nothing. A failing call ends the handler with nothing reported. */
  function CoreCallbackTrace(data: string, fault: Fault): (t: seq<Action>)
    requires FaultFits(CorePlan(data), fault)
    ensures |t| >= 1 && t[0] == Answer
    ensures Count(Answers, t) == 1
    ensures Count(Reports, t) == 0
    ensures data != "info" && data != "help" ==> t == [Answer]
    ensures fault == NoFault && data == "info" ==> t == [Answer, Edit(Notice(InfoText), None)]
    ensures fault == NoFault && data == "help" ==> t == [Answer, Edit(Notice(FeatureList), None)]
    ensures Count(Edits, t) <= 1
    ensures fault == NoFault ==> (Count(Edits, t) == 1 <==> data == "info" || data == "help")
  {
    var t := Perform(CorePlan(data), fault, false);
    var page := CorePage(data);
    CountsSingle(Answer);
    if |page| == 1 then
      CountsSingle(page[0]);
      CountsAppend([Answer], page);
      t
    else
      assert [Answer] + page == [Answer];
      t
  }

  /** The payloads the start-menu callback's pattern lets through, and what the
      callback does with each: "info" and "help" each get their page, and the
      variants with a trailing newline that Python's `$` also admits are
      answered without any edit. The hack plugin's payload is never routed here. */
  lemma CoreRouting(data: string)
    ensures Accepts(CoreTokens, data) <==> data in {"info", "help", "info\n", "help\n"}
    ensures !Accepts(CoreTokens, HackHelpPayload)
    ensures Accepts(CoreTokens, data) && data != "info" && data != "help" ==>
              CoreCallbackTrace(data, NoFault) == [Answer]
  {
  }

  /** The "Back" button of the hack plugin's help page carries a payload the
      start-menu pattern accepts and the hack pattern does not, and for that
      payload the start-menu callback shows the feature list. */
  lemma BackButtonShowsFeatureList()
    ensures var data := Hack.BackKeyboard[0][0].data;
      Accepts(CoreTokens, data) && !Accepts(HackHelpToken, data)
      && CoreCallbackTrace(data, NoFault) == [Answer, Edit(Notice(FeatureList), None)]
  {
  }

  /** The two core registrations main.py adds after the plugin loop. */
  const CoreRegistrations: seq<Registration> :=
    [OnCommand("start", StartCommand), OnCallback(StartMenuCallback, Matching(CoreTokens))]

  /** Start-up: the plugin loop, then `/start`, then the start-menu callback. */
  function Startup(listing: seq<string>, modules: map<string, PluginModule>): (r: Result<seq<Registration>, LoadError>)
    ensures r.Success? <==>
            forall i :: 0 <= i < |listing| && IsPluginFile(listing[i]) ==>
              LoadModule(ModuleName(listing[i]), modules).Success?
    ensures r.Success? ==>
              |r.value| >= 2
              && r.value[|r.value| - 2] == OnCommand("start", StartCommand)
              && r.value[|r.value| - 1] == OnCallback(StartMenuCallback, Matching(CoreTokens))
              && (forall k :: 0 <= k < |r.value| - 2 ==> HandlerModule(r.value[k]).Some?)
  {
    LoadAllSucceeds(listing, modules);
    match LoadAll(listing, modules)
    case Failure(e) => Failure(e)
    case Success(plugins) =>
      LoadAllFromListing(listing, modules);
      Success(plugins + CoreRegistrations)
  }

  /** Whether a callback handler's filter lets a payload through. */
  predicate Admits(filter: Filter, data: string)
  {
    filter.AnyPayload? || Accepts(filter.pattern, data)
  }

  /** Whether registration `k` is a callback handler that admits the payload. */
  predicate TakesAt(regs: seq<Registration>, k: nat, data: string)
    requires k < |regs|
  {
    regs[k].OnCallback? && Admits(regs[k].filter, data)
  }

  /** The callback handler that receives a payload. Every registration here
      shares the library's default handler group, where the first handler, in
      registration order, whose filter admits the update takes it. */
  function FirstCallback(regs: seq<Registration>, data: string): (h: Option<Handler>)
    ensures h.None? <==> forall k :: 0 <= k < |regs| ==> !TakesAt(regs, k, data)
    ensures h.Some? ==> exists k :: 0 <= k < |regs| && TakesAt(regs, k, data) && regs[k].handler == h.value
                          && forall j :: 0 <= j < k ==> !TakesAt(regs, j, data)
  {
    if |regs| == 0 then None
    else if TakesAt(regs, 0, data) then Some(regs[0].handler)
    else
      var h := FirstCallback(regs[1..], data);
      assert forall k :: 1 <= k < |regs| ==> (TakesAt(regs, k, data) <==> TakesAt(regs[1..], k - 1, data));
      if h.Some? then
        var k :| 0 <= k < |regs| - 1 && TakesAt(regs[1..], k, data) && regs[1..][k].handler == h.value
                 && forall j :: 0 <= j < k ==> !TakesAt(regs[1..], j, data);
        assert TakesAt(regs, k + 1, data) && regs[k + 1].handler == h.value;
        h
      else
        h
  }

  /** The first-match rule singled out: a callback registration that admits
      the payload, with none before it admitting it, is the one chosen. */
  lemma FirstCallbackAt(regs: seq<Registration>, data: string, k: nat)
    requires k < |regs| && TakesAt(regs, k, data)
    requires forall j :: 0 <= j < k ==> !TakesAt(regs, j, data)
    ensures FirstCallback(regs, data) == Some(regs[k].handler)
  {
  }

  /** The first ".py" entry, in listing order, whose module defines `callback`
      receives every callback payload after start-up. */
  lemma FirstPluginTakesAll(listing: seq<string>, modules: map<string, PluginModule>, data: string, i: nat)
    requires Startup(listing, modules).Success?
    requires i < |listing| && PluginCallbackAt(listing, modules, i)
    requires NoPluginCallback(listing[..i], modules)
    ensures FirstCallback(Startup(listing, modules).value, data) == Some(ModuleCallback(ModuleName(listing[i])))
  {
    var plugins := LoadAll(listing, modules).value;
    var regs := Startup(listing, modules).value;
    assert regs == plugins + CoreRegistrations;
    FirstPluginCallback(listing, modules, i);
    var k :| 0 <= k < |plugins| && plugins[k] == OnCallback(ModuleCallback(ModuleName(listing[i])), AnyPayload)
             && NoCallbacks(plugins[..k]);
    forall j | 0 <= j < k
      ensures !TakesAt(regs, j, data)
    {
      assert regs[j] == plugins[..k][j];
    }
    assert regs[k] == plugins[k];
    FirstCallbackAt(regs, data, k);
  }

  /** Who receives a callback payload after start-up. With no plugin defining
      `callback`, "info" and "help" (and anything else the start-menu pattern
      accepts) reach the start-menu callback and other payloads no handler at
      all. As soon as one plugin defines `callback`, the catch-all handler of
      the first such ".py" entry in listing order receives every payload and
      the start-menu callback none. */
  lemma StartMenuDispatch(listing: seq<string>, modules: map<string, PluginModule>, data: string)
    requires Startup(listing, modules).Success?
    ensures NoPluginCallback(listing, modules) ==>
              FirstCallback(Startup(listing, modules).value, data)
              == if Accepts(CoreTokens, data) then Some(StartMenuCallback) else None
    ensures !NoPluginCallback(listing, modules) ==>
              FirstCallback(Startup(listing, modules).value, data).Some?
              && FirstCallback(Startup(listing, modules).value, data).value.ModuleCallback?
    ensures forall i :: 0 <= i < |listing| && PluginCallbackAt(listing, modules, i)
                        && NoPluginCallback(listing[..i], modules) ==>
              FirstCallback(Startup(listing, modules).value, data) == Some(ModuleCallback(ModuleName(listing[i])))
  {
    forall i | 0 <= i < |listing| && PluginCallbackAt(listing, modules, i) && NoPluginCallback(listing[..i], modules)
      ensures FirstCallback(Startup(listing, modules).value, data) == Some(ModuleCallback(ModuleName(listing[i])))
    {
      FirstPluginTakesAll(listing, modules, data, i);
    }
    var plugins := LoadAll(listing, modules).value;
    var regs := Startup(listing, modules).value;
    LoadAllCallbacks(listing, modules);
    assert regs == plugins + CoreRegistrations;
    assert forall k :: 0 <= k < |plugins| ==> regs[k] == plugins[k];
    var h := FirstCallback(regs, data);
    if NoPluginCallback(listing, modules) {
      assert forall k :: 0 <= k < |regs| - 1 ==> !TakesAt(regs, k, data);
      if Accepts(CoreTokens, data) {
        assert TakesAt(regs, |regs| - 1, data);
      }
    } else {
      var k0 :| 0 <= k0 < |plugins| && plugins[k0].OnCallback?;
      assert TakesAt(regs, k0, data);
      var k :| 0 <= k < |regs| && TakesAt(regs, k, data) && regs[k].handler == h.value
               && forall j :: 0 <= j < k ==> !TakesAt(regs, j, data);
      assert k <= k0;
    }
  }
}
