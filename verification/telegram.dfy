/**
 The messaging transport as the handlers see it: opaque display texts, inline
 buttons, the calls a handler makes (as a trace of abstract actions), and the
 registrations an application collects. A handler is modelled as a Plan, the
 calls it would make if none of them raised; Perform turns a plan and a fault
 into the trace that actually happens, with or without an exception boundary
 that reports the failure.
 */
module Telegram {
  import opened Wrappers

  /** The fixed display strings the handlers send; their wording is incidental. */
  datatype Notice =
    | NotAReply        // "/hack" used without replying to a message
    | NoSelfHack       // the target is the bot itself
    | NoOwnerHack      // the target is the owner
    | Initiating       // first message of the animation
    | HackComplete     // terminal state of the animation
    | HackHelpText     // the hack plugin's help page
    | Welcome          // reply to /start
    | InfoText         // the core "info" page
    | FeatureList      // the core "help" page

  /** A message body: either a fixed notice or text computed by the handler. */
  datatype Text = Notice(notice: Notice) | Verbatim(body: string)

  datatype Label = InfoLabel | HelpLabel | BackLabel | OpenFileLabel

  /** The external link behind the hack plugin's final button, kept opaque. */
  datatype Url = HackedFileUrl

  /** An inline button either sends a callback payload back or opens a link. */
  datatype Button = CallbackButton(caption: Label, data: string) | UrlButton(caption: Label, url: Url)

  /** Rows of buttons, top to bottom. */
  type Keyboard = seq<seq<Button>>

  /** One step of a handler's conversation with the transport. `Sleep` is the
      pause between animation frames and `ReportError` the message sent to the
      maintenance chat by an exception boundary; neither is a transport call
      that can raise. */
  datatype Action =
    | GetMe
    | Reply(text: Text, replyTo: Option<int>, markup: Option<Keyboard>)
    | Edit(text: Text, markup: Option<Keyboard>)
    | Sleep
    | Answer
    | ReportError

  predicate IsTransportCall(a: Action)
  {
    !a.Sleep? && !a.ReportError?
  }

  /** The calls a handler makes when none of them raises, and whether the
      handler's own code raises after the last of them. */
  datatype Plan = Plan(calls: seq<Action>, crashes: bool)

  /** Either every call succeeds, or the call at the given index of the plan raises. */
  datatype Fault = NoFault | Raises(call: nat)

  /** A fault can only name a transport call the plan actually makes. */
  predicate FaultFits(plan: Plan, fault: Fault)
  {
    fault.Raises? ==> fault.call < |plan.calls| && IsTransportCall(plan.calls[fault.call])
  }

  /** Plans never contain error reports of their own; only Perform adds one. */
  predicate Unreported(calls: seq<Action>)
  {
    forall i :: 0 <= i < |calls| ==> !calls[i].ReportError?
  }

  /** True when the handler raises: a call fails or its own code does. */
  predicate Raised(plan: Plan, fault: Fault)
  {
    fault.Raises? || plan.crashes
  }

  /** The kinds of action a trace is counted by. */
  datatype Kind = Edits | Answers | Reports

  predicate OfKind(a: Action, k: Kind)
  {
    match k
    case Edits => a.Edit?
    case Answers => a.Answer?
    case Reports => a.ReportError?
  }

  /** The number of actions of kind `k` in a trace. */
  function Count(k: Kind, trace: seq<Action>): nat
  {
    if |trace| == 0 then 0
    else Count(k, trace[..|trace| - 1]) + (if OfKind(trace[|trace| - 1], k) then 1 else 0)
  }

  lemma {:induction false} UnreportedCountsZero(calls: seq<Action>)
    requires Unreported(calls)
    ensures Count(Reports, calls) == 0
  {
    if |calls| > 0 {
      UnreportedCountsZero(calls[..|calls| - 1]);
    }
  }

  /** Runs `plan` under `fault`. The calls up to and including a failing one
      happen, nothing after it; with an exception boundary (`try`/`except`
      that reports to the maintenance chat) exactly one report follows, and
      without one the trace simply stops. */
  function Perform(plan: Plan, fault: Fault, boundary: bool): (trace: seq<Action>)
    requires FaultFits(plan, fault)
    requires Unreported(plan.calls)
    ensures !Raised(plan, fault) ==> trace == plan.calls
    ensures fault == NoFault && plan.crashes ==>
              trace == plan.calls + (if boundary then [ReportError] else [])
    ensures fault.Raises? ==> |trace| == fault.call + 1 + (if boundary then 1 else 0)
    ensures fault.Raises? ==> trace[..fault.call + 1] == plan.calls[..fault.call + 1]
    ensures Count(Reports, trace) == (if boundary && Raised(plan, fault) then 1 else 0)
    ensures boundary && Raised(plan, fault) ==> trace[|trace| - 1] == ReportError
  {
    var attempted := if fault.Raises? then plan.calls[..fault.call + 1] else plan.calls;
    assert Unreported(attempted);
    UnreportedCountsZero(attempted);
    if boundary && Raised(plan, fault) then
      var t := attempted + [ReportError];
      assert t[..|t| - 1] == attempted;
      t
    else attempted
  }

  /** The handler code a registration binds. Plugin handlers loaded by the
      start-up loop are named by their module; the hack plugin's own `setup`
      binds its two coroutines. */
  datatype Handler =
    | ModuleHandle(moduleName: string)
    | ModuleCallback(moduleName: string)
    | HackCommand
    | HackHelpCallback
    | StartCommand
    | StartMenuCallback

  /** A callback handler either takes every callback query or only those whose
      payload its pattern accepts. */
  datatype Filter = AnyPayload | Matching(pattern: CallbackPattern)

  /** The two anchored payload patterns that main.py and plugins/hack.py register. */
  datatype CallbackPattern =
    | CoreTokens      // ^(info|help)$
    | HackHelpToken   // ^plugin::hack$

  datatype Registration =
    | OnCommand(command: string, handler: Handler)
    | OnCallback(handler: Handler, filter: Filter)

  /** The counts of a concatenation add up. */
  lemma {:induction false} CountsAppend(a: seq<Action>, b: seq<Action>)
    ensures forall k :: Count(k, a + b) == Count(k, a) + Count(k, b)
  {
    if |b| > 0 {
      var ab := a + b;
      assert ab[..|ab| - 1] == a + b[..|b| - 1];
      CountsAppend(a, b[..|b| - 1]);
    } else {
      assert a + b == a;
    }
  }

  /** The counts of a single action. */
  lemma CountsSingle(x: Action)
    ensures forall k :: Count(k, [x]) == (if OfKind(x, k) then 1 else 0)
  {
  }
}
