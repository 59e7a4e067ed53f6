/**
 The hack plugin: the `/hack` command with its three guards and its animated
 scroll-back buffer, the help-page callback, and the plugin's `setup` hook.

 The animation keeps a log of at most `MaxLines` lines. Each frame is split on
 newlines and appended to the log, the log is cut back to its last `MaxLines`
 lines, and the whole log is re-rendered inside a code fence as the new message
 text. After the last frame one terminal edit shows the completion notice with
 a single link button.
 */
module Hack {
  import opened Wrappers
  import opened Lines
  import opened Telegram
  import opened Patterns

  const MaxLines: nat := 6

  /** The last `n` elements of `s` (all of `s` when it is no longer than `n`). */
  function LastN<T>(s: seq<T>, n: nat): (r: seq<T>)
    ensures |r| == if |s| <= n then |s| else n
  {
    if |s| > n then s[|s| - n..] else s
  }

  /** One pass of the animation loop over a frame: append its lines, then keep
      at most `MaxLines` of them. */
  function Push(log: seq<string>, frame: string): (r: seq<string>)
    ensures |r| <= MaxLines
  {
    LastN(log + Split(frame), MaxLines)
  }

  /** All lines of the frames, in order, before any truncation. */
  function AllLines(frames: seq<string>): seq<string>
  {
    if |frames| == 0 then []
    else AllLines(frames[..|frames| - 1]) + Split(frames[|frames| - 1])
  }

  /** The log after the animation loop has consumed `frames`. */
  function Scroll(frames: seq<string>): (log: seq<string>)
    ensures |log| <= MaxLines
    ensures |frames| > 0 ==> |log| >= 1
  {
    if |frames| == 0 then []
    else Push(Scroll(frames[..|frames| - 1]), frames[|frames| - 1])
  }

  /** The text of every animation edit: the whole log inside a code fence. */
  function Render(log: seq<string>): (text: string)
    ensures |text| >= 8
    ensures text[..4] == "```\n" && text[|text| - 4..] == "\n```"
    ensures text[4..|text| - 4] == Join(log)
  {
    "```\n" + Join(log) + "\n```"
  }

  /** The edits of the animation loop, each followed by its pause. */
  function FrameEdits(frames: seq<string>): seq<Action>
  {
    if |frames| == 0 then []
    else FrameEdits(frames[..|frames| - 1]) + [Edit(Verbatim(Render(Scroll(frames))), None), Sleep]
  }

  /** The terminal keyboard: one row holding one link button. */
  const FinalKeyboard: Keyboard := [[UrlButton(OpenFileLabel, HackedFileUrl)]]

  /** The frames the plugin animates. Only their line structure matters here;
      the emoji decorations of the displayed text are left out. */
  const HackFrames: seq<string> := [
    "Scanning target...",
    "Scanning target...\nTarget locked",
    "Connecting to secured server...",
    "Bypassing firewall 1...",
    "Bypassing firewall 1...\nBypassing firewall 2...",
    "Bypassing firewall 1...\nBypassing firewall 2...\nBypassing firewall 3...",
    "Installing... 10%\n#.........",
    "Installing... 25%\n##........",
    "Installing... 67%\n#######...",
    "Installing... 95%\n#########.",
    "Installing... 100%\n##########\nPayload deployed",
    "Extracting data...",
    "Dumping messages...",
    "Generating PDF report..."
  ]

  /** The message `/hack` was sent in reply to: its id and, when the platform
      supplies one, the id of its author. */
  datatype Replied = Replied(messageId: int, sender: Option<int>)

  /** A `/hack` update: the message it replies to, if any. */
  datatype Request = Request(replyTo: Option<Replied>)

  /** The calls `/hack` makes with these frames, when none of them raises.
      Without an author on the replied-to message, reading its id raises once
      `get_me` has returned. */
  function HackPlan(req: Request, botId: int, ownerId: int, frames: seq<string>): Plan
  {
    match req.replyTo
    case None => Plan([Reply(Notice(NotAReply), None, None)], false)
    case Some(m) =>
      match m.sender
      case None => Plan([GetMe], true)
      case Some(target) =>
        if target == botId then Plan([GetMe, Reply(Notice(NoSelfHack), None, None)], false)
        else if target == ownerId then Plan([GetMe, Reply(Notice(NoOwnerHack), None, None)], false)
        else
          Plan([GetMe, Reply(Notice(Initiating), Some(m.messageId), None)]
               + FrameEdits(frames)
               + [Edit(Notice(HackComplete), Some(FinalKeyboard))], false)
  }

  /** The `/hack` command handler: its plan run inside the plugin's exception
      boundary, which reports any failure to the maintenance chat. */
  function HackCommandTrace(req: Request, botId: int, ownerId: int, frames: seq<string>, fault: Fault): seq<Action>
    requires FaultFits(HackPlan(req, botId, ownerId, frames), fault)
  {
    FrameEditsUnreported(frames);
    Perform(HackPlan(req, botId, ownerId, frames), fault, true)
  }

  /** The help page's single row, with its single "Back" button to the core help page. */
  const BackKeyboard: Keyboard := [[CallbackButton(BackLabel, HelpToken)]]

  function HelpPlan(): Plan
  {
    Plan([Answer, Edit(Notice(HackHelpText), Some(BackKeyboard))], false)
  }

  /** The help-page callback inside its exception boundary: answer the query,
      then show the help page with its "Back" button; a failure of either call
      is reported once. */
  function HelpCallbackTrace(fault: Fault): (trace: seq<Action>)
    requires FaultFits(HelpPlan(), fault)
    ensures |trace| >= 1 && trace[0] == Answer
    ensures Count(Answers, trace) == 1
    ensures Count(Edits, trace) <= 1
    ensures forall i :: 0 <= i < |trace| && trace[i].Edit? ==>
              i > 0 && trace[i].markup.Some?
              && |trace[i].markup.value| == 1 && |trace[i].markup.value[0]| == 1
              && trace[i].markup.value[0][0].CallbackButton?
              && trace[i].markup.value[0][0].data == "help"
    ensures fault == NoFault ==> Count(Edits, trace) == 1
    ensures fault == NoFault ==> trace == [Answer, Edit(Notice(HackHelpText), Some(BackKeyboard))]
    ensures forall i :: 0 <= i < |trace| && trace[i].Edit? ==> trace[i].text == Notice(HackHelpText)
    ensures Count(Reports, trace) == (if fault.Raises? then 1 else 0)
    ensures fault.Raises? ==> trace[|trace| - 1] == ReportError
  {
    var answer := [Answer];
    var edit := [Edit(Notice(HackHelpText), Some(BackKeyboard))];
    var t := Perform(HelpPlan(), fault, true);
    CountsSingle(Answer);
    CountsSingle(edit[0]);
    CountsSingle(ReportError);
    assert HelpPlan().calls == answer + edit;
    if fault == NoFault then
      CountsAppend(answer, edit);
      t
    else if fault.call == 0 then
      assert t == answer + [ReportError];
      CountsAppend(answer, [ReportError]);
      t
    else
      assert t == (answer + edit) + [ReportError];
      CountsAppend(answer, edit);
      CountsAppend(answer + edit, [ReportError]);
      t
  }

  /** The plugin's `setup(app)`: the `/hack` command, then the help-page
      callback for its own payload only. */
  function Setup(): (regs: seq<Registration>)
    ensures |regs| == 2
    ensures regs[0].OnCommand? && regs[0].command == "hack" && regs[0].handler == HackCommand
    ensures regs[1].OnCallback? && regs[1].filter.Matching? && regs[1].handler == HackHelpCallback
    ensures forall data :: Accepts(regs[1].filter.pattern, data) <==> data in {"plugin::hack", "plugin::hack\n"}
  {
    [OnCommand("hack", HackCommand), OnCallback(HackHelpCallback, Matching(HackHelpToken))]
  }

  // ---------------------------------------------------------------------
  // The scroll-back buffer
  // ---------------------------------------------------------------------

  /** Cutting to the last `n` before appending more and cutting again is the
      same as cutting once at the end. */
  lemma {:induction false} LastNAbsorbs<T>(a: seq<T>, b: seq<T>, n: nat)
    ensures LastN(LastN(a, n) + b, n) == LastN(a + b, n)
  {
  }

  /** Each frame contributes one line more than it has newlines (an empty frame
      contributes one empty line); the log grows by that many up to the cap and
      is a suffix of the old log followed by the frame's lines. */
  lemma PushGrowth(log: seq<string>, frame: string)
    ensures |Split(frame)| == NewlineCount(frame) + 1
    ensures var r := Push(log, frame);
            |r| <= |log + Split(frame)| && r == (log + Split(frame))[|log + Split(frame)| - |r|..]
    ensures |Push(log, frame)| == if |log| + NewlineCount(frame) + 1 <= MaxLines
                                  then |log| + NewlineCount(frame) + 1 else MaxLines
    ensures frame == "" ==> Push(log, frame) == LastN(log + [""], MaxLines)
  {
    SplitLength(frame);
  }

  /** No line of the log contains a newline, so a rendered log can be read back
      line by line. */
  lemma {:induction false} ScrollLinesAreLines(frames: seq<string>)
    ensures NoNewlines(Scroll(frames))
  {
    if |frames| > 0 {
      var prev := Scroll(frames[..|frames| - 1]);
      var last := frames[|frames| - 1];
      ScrollLinesAreLines(frames[..|frames| - 1]);
      PushGrowth(prev, last);
      var grown := prev + Split(last);
      assert NoNewlines(grown);
      var r := Push(prev, last);
      assert forall i :: 0 <= i < |r| ==> r[i] == grown[|grown| - |r| + i];
    }
  }

  /** After any prefix of frames the log is exactly the last `MaxLines` lines
      of all their lines. */
  lemma {:induction false} ScrollKeepsLastLines(frames: seq<string>)
    ensures Scroll(frames) == LastN(AllLines(frames), MaxLines)
  {
    if |frames| > 0 {
      var prefix := frames[..|frames| - 1];
      var last := frames[|frames| - 1];
      ScrollKeepsLastLines(prefix);
      LastNAbsorbs(AllLines(prefix), Split(last), MaxLines);
    }
  }

  /** While at most `MaxLines` lines have arrived nothing is dropped. */
  lemma ScrollWithoutTruncation(frames: seq<string>)
    requires |AllLines(frames)| <= MaxLines
    ensures Scroll(frames) == AllLines(frames)
  {
  }

  /** A rendered message determines the whole log: the text between the fences
      splits back into exactly the log's lines. */
  lemma RenderShowsWholeLog(log: seq<string>)
    requires |log| >= 1
    requires NoNewlines(log)
    ensures var text := Render(log); Split(text[4..|text| - 4]) == log
  {
    SplitJoin(log);
  }

  // ---------------------------------------------------------------------
  // The animation loop as plugins/hack.py writes it
  // ---------------------------------------------------------------------

  /** The `for step in sequence` loop: mutate the log in place and issue one
      whole-log edit and one pause per frame. */
  method Animate(frames: seq<string>) returns (log: seq<string>, calls: seq<Action>)
    ensures log == LastN(AllLines(frames), MaxLines)
    ensures calls == FrameEdits(frames)
  {
    log := [];
    calls := [];
    var i := 0;
    while i < |frames|
      invariant 0 <= i <= |frames|
      invariant log == Scroll(frames[..i])
      invariant calls == FrameEdits(frames[..i])
    {
      ghost var next := frames[..i + 1];
      assert next[..i] == frames[..i] && next[i] == frames[i];
      assert Scroll(next) == Push(log, frames[i]);
      log := log + Split(frames[i]);
      if |log| > MaxLines {
        log := log[|log| - MaxLines..];
      }
      assert log == Scroll(next);
      calls := calls + [Edit(Verbatim(Render(log)), None), Sleep];
      assert calls == FrameEdits(next);
      i := i + 1;
    }
    assert frames[..i] == frames;
    ScrollKeepsLastLines(frames);
  }

  // ---------------------------------------------------------------------
  // Shape of the traces
  // ---------------------------------------------------------------------

  lemma {:induction false} FrameEditsUnreported(frames: seq<string>)
    ensures Unreported(FrameEdits(frames))
  {
    if |frames| > 0 {
      FrameEditsUnreported(frames[..|frames| - 1]);
    }
  }

  /** One edit and then one pause per frame. */
  lemma {:induction false} FrameEditsLength(frames: seq<string>)
    ensures |FrameEdits(frames)| == 2 * |frames|
    ensures Count(Edits, FrameEdits(frames)) == |frames|
  {
    if |frames| > 0 {
      var prefix := frames[..|frames| - 1];
      FrameEditsLength(prefix);
      var tail := [Edit(Verbatim(Render(Scroll(frames))), None), Sleep];
      CountsAppend(FrameEdits(prefix), tail);
      CountsAppend([tail[0]], [Sleep]);
      assert tail == [tail[0]] + [Sleep];
      CountsSingle(tail[0]);
      CountsSingle(Sleep);
    }
  }

  /** The edits follow frame order: the i-th edit shows the log after frame i
      and is followed by its pause. */
  lemma {:induction false} FrameEditsInOrder(frames: seq<string>)
    ensures |FrameEdits(frames)| == 2 * |frames|
    ensures forall i :: 0 <= i < |frames| ==>
              FrameEdits(frames)[2 * i] == Edit(Verbatim(Render(Scroll(frames[..i + 1]))), None)
              && FrameEdits(frames)[2 * i + 1] == Sleep
  {
    FrameEditsLength(frames);
    forall i | 0 <= i < |frames|
      ensures FrameEdits(frames)[2 * i] == Edit(Verbatim(Render(Scroll(frames[..i + 1]))), None)
      ensures FrameEdits(frames)[2 * i + 1] == Sleep
    {
      FrameEditAt(frames, i);
    }
  }

  /** The edit for frame i and its pause, singled out. */
  lemma FrameEditAt(frames: seq<string>, i: nat)
    requires i < |frames|
    ensures |FrameEdits(frames)| == 2 * |frames|
    ensures FrameEdits(frames)[2 * i] == Edit(Verbatim(Render(Scroll(frames[..i + 1]))), None)
    ensures FrameEdits(frames)[2 * i + 1] == Sleep
  {
    var upto := frames[..i + 1];
    var e := FrameEdits(upto);
    FrameEditsPrefix(frames, i + 1);
    assert upto[..i] == frames[..i];
    FrameEditsLength(frames[..i]);
    assert e == FrameEdits(frames[..i]) + [Edit(Verbatim(Render(Scroll(upto))), None), Sleep];
  }

  /** The edits for a prefix of the frames are a prefix of the edits. */
  lemma {:induction false} FrameEditsPrefix(frames: seq<string>, k: nat)
    requires k <= |frames|
    ensures |FrameEdits(frames)| == 2 * |frames| && |FrameEdits(frames[..k])| == 2 * k
    ensures FrameEdits(frames[..k]) == FrameEdits(frames)[..2 * k]
    decreases |frames|
  {
    FrameEditsLength(frames[..k]);
    FrameEditsLength(frames);
    if k == |frames| {
      assert frames[..k] == frames;
    } else {
      var prefix := frames[..|frames| - 1];
      FrameEditsPrefix(prefix, k);
      assert prefix[..k] == frames[..k];
      var tail := [Edit(Verbatim(Render(Scroll(frames))), None), Sleep];
      assert FrameEdits(frames) == FrameEdits(prefix) + tail;
      PrefixOfAppend(FrameEdits(prefix), tail, 2 * k);
    }
  }

  lemma PrefixOfAppend<T>(a: seq<T>, b: seq<T>, m: nat)
    requires m <= |a|
    ensures (a + b)[..m] == a[..m]
  {
  }

  /** The first guard: without a replied-to message only the warning is sent
      (and reported if sending it raises); nothing is edited. */
  lemma HackNeedsReply(req: Request, botId: int, ownerId: int, frames: seq<string>, fault: Fault)
    requires req.replyTo.None?
    requires FaultFits(HackPlan(req, botId, ownerId, frames), fault)
    ensures var t := HackCommandTrace(req, botId, ownerId, frames, fault);
      |t| >= 1 && t[0] == Reply(Notice(NotAReply), None, None)
      && forall i :: 1 <= i < |t| ==> t[i] == ReportError
    ensures fault == NoFault ==>
      HackCommandTrace(req, botId, ownerId, frames, fault) == [Reply(Notice(NotAReply), None, None)]
  {
  }

  /** A replied-to message without an author: `get_me` is called, then reading
      the author's id raises and the failure is reported. */
  lemma HackWithoutAuthor(req: Request, botId: int, ownerId: int, frames: seq<string>, fault: Fault)
    requires req.replyTo.Some? && req.replyTo.value.sender.None?
    requires FaultFits(HackPlan(req, botId, ownerId, frames), fault)
    ensures HackCommandTrace(req, botId, ownerId, frames, fault) == [GetMe, ReportError]
  {
  }

  /** The second and third guards, in that order: a target that is the bot gets
      the self-refusal, a target that is the owner (and not the bot) the owner
      refusal. The refusal is sent right after `get_me` unless `get_me` raises,
      nothing else but a report follows it, and nothing is edited. */
  lemma HackRefusals(req: Request, botId: int, ownerId: int, frames: seq<string>, fault: Fault)
    requires req.replyTo.Some? && req.replyTo.value.sender.Some?
    requires req.replyTo.value.sender.value == botId || req.replyTo.value.sender.value == ownerId
    requires FaultFits(HackPlan(req, botId, ownerId, frames), fault)
    ensures var t := HackCommandTrace(req, botId, ownerId, frames, fault);
      var refusal := if req.replyTo.value.sender.value == botId then NoSelfHack else NoOwnerHack;
      |t| >= 1 && t[0] == GetMe
      && forall i :: 1 <= i < |t| ==> t[i] == Reply(Notice(refusal), None, None) || t[i] == ReportError
    ensures var t := HackCommandTrace(req, botId, ownerId, frames, fault);
      var refusal := if req.replyTo.value.sender.value == botId then NoSelfHack else NoOwnerHack;
      fault != Raises(0) ==> |t| >= 2 && t[..2] == [GetMe, Reply(Notice(refusal), None, None)]
    ensures fault == NoFault ==>
      var refusal := if req.replyTo.value.sender.value == botId then NoSelfHack else NoOwnerHack;
      HackCommandTrace(req, botId, ownerId, frames, fault) == [GetMe, Reply(Notice(refusal), None, None)]
  {
  }

  /** When every guard passes, the "initiating" reply is made before any edit,
      whatever call raises. */
  lemma HackInitiatesBeforeEdits(req: Request, botId: int, ownerId: int, frames: seq<string>, fault: Fault)
    requires req.replyTo.Some? && req.replyTo.value.sender.Some?
    requires req.replyTo.value.sender.value != botId && req.replyTo.value.sender.value != ownerId
    requires FaultFits(HackPlan(req, botId, ownerId, frames), fault)
    ensures var t := HackCommandTrace(req, botId, ownerId, frames, fault);
      forall i :: 0 <= i < |t| && t[i].Edit? ==>
        i >= 2 && t[1] == Reply(Notice(Initiating), Some(req.replyTo.value.messageId), None)
  {
  }

  /** When every call succeeds and every guard passes: "get_me", the initiating
      reply, one whole-log edit and one pause per frame in frame order, then
      the terminal edit with a one-button keyboard, and nothing after it. */
  lemma HackSuccessOrder(req: Request, botId: int, ownerId: int, frames: seq<string>)
    requires req.replyTo.Some? && req.replyTo.value.sender.Some?
    requires req.replyTo.value.sender.value != botId && req.replyTo.value.sender.value != ownerId
    ensures FaultFits(HackPlan(req, botId, ownerId, frames), NoFault)
    ensures var t := HackCommandTrace(req, botId, ownerId, frames, NoFault);
      |t| == 2 * |frames| + 3
      && t[0] == GetMe
      && t[1] == Reply(Notice(Initiating), Some(req.replyTo.value.messageId), None)
      && (forall i :: 0 <= i < |frames| ==>
            t[2 + 2 * i] == Edit(Verbatim(Render(Scroll(frames[..i + 1]))), None)
            && t[3 + 2 * i] == Sleep)
      && t[|t| - 1].Edit? && t[|t| - 1].text == Notice(HackComplete)
      && t[|t| - 1].markup.Some? && |t[|t| - 1].markup.value| == 1 && |t[|t| - 1].markup.value[0]| == 1
  {
    var m := req.replyTo.value;
    SuccessTraceIsPlan(req, botId, ownerId, frames);
    var edits := FrameEdits(frames);
    FrameEditsLength(frames);
    var t := [GetMe, Reply(Notice(Initiating), Some(m.messageId), None)] + edits
             + [Edit(Notice(HackComplete), Some(FinalKeyboard))];
    var middle := t[2..|t| - 1];
    assert middle == edits;
    forall i | 0 <= i < |frames|
      ensures t[2 + 2 * i] == Edit(Verbatim(Render(Scroll(frames[..i + 1]))), None)
      ensures t[3 + 2 * i] == Sleep
    {
      FrameEditsInOrder(frames);
      assert t[2 + 2 * i] == middle[2 * i];
      assert t[3 + 2 * i] == middle[2 * i + 1];
    }
  }

  /** On the same path there is exactly one edit per frame plus the terminal
      one, and nothing is reported. */
  lemma HackSuccessCounts(req: Request, botId: int, ownerId: int, frames: seq<string>)
    requires req.replyTo.Some? && req.replyTo.value.sender.Some?
    requires req.replyTo.value.sender.value != botId && req.replyTo.value.sender.value != ownerId
    ensures FaultFits(HackPlan(req, botId, ownerId, frames), NoFault)
    ensures Count(Edits, HackCommandTrace(req, botId, ownerId, frames, NoFault)) == |frames| + 1
    ensures Count(Reports, HackCommandTrace(req, botId, ownerId, frames, NoFault)) == 0
  {
    var m := req.replyTo.value;
    var head := [GetMe, Reply(Notice(Initiating), Some(m.messageId), None)];
    var edits := FrameEdits(frames);
    var final := [Edit(Notice(HackComplete), Some(FinalKeyboard))];
    SuccessTraceIsPlan(req, botId, ownerId, frames);
    FrameEditsLength(frames);
    FrameEditsUnreported(frames);
    UnreportedCountsZero(edits);
    assert head == [GetMe] + [head[1]];
    CountsAppend([GetMe], [head[1]]);
    CountsSingle(GetMe);
    CountsSingle(head[1]);
    CountsSingle(final[0]);
    CountsAppend(head, edits);
    CountsAppend(head + edits, final);
  }

  /** Without a fault and with every guard passed, the trace is the plan. */
  lemma SuccessTraceIsPlan(req: Request, botId: int, ownerId: int, frames: seq<string>)
    requires req.replyTo.Some? && req.replyTo.value.sender.Some?
    requires req.replyTo.value.sender.value != botId && req.replyTo.value.sender.value != ownerId
    ensures FaultFits(HackPlan(req, botId, ownerId, frames), NoFault)
    ensures HackCommandTrace(req, botId, ownerId, frames, NoFault)
            == [GetMe, Reply(Notice(Initiating), Some(req.replyTo.value.messageId), None)]
               + FrameEdits(frames) + [Edit(Notice(HackComplete), Some(FinalKeyboard))]
  {
  }

  /** True when all three guards let the command through. */
  predicate GuardsPass(req: Request, botId: int, ownerId: int)
  {
    req.replyTo.Some? && req.replyTo.value.sender.Some?
    && req.replyTo.value.sender.value != botId && req.replyTo.value.sender.value != ownerId
  }

  /** The plugin's `/hack` handler with its own fourteen frames: on the success
      path fifteen edits (fourteen frames and the terminal one) in thirty-one
      actions; a stopping guard never edits, and without faults each refusing
      guard sends exactly its own notice. */
  function HackCommandHandler(req: Request, botId: int, ownerId: int, fault: Fault): (t: seq<Action>)
    requires FaultFits(HackPlan(req, botId, ownerId, HackFrames), fault)
    ensures |t| >= 1
    ensures fault == NoFault && GuardsPass(req, botId, ownerId) ==> |t| == 31 && Count(Edits, t) == 15
    ensures !GuardsPass(req, botId, ownerId) ==> forall i :: 0 <= i < |t| ==> !t[i].Edit?
    ensures fault == NoFault && req.replyTo.None? ==> t == [Reply(Notice(NotAReply), None, None)]
    ensures fault == NoFault && req.replyTo.Some? && req.replyTo.value.sender == Some(botId) ==>
              t == [GetMe, Reply(Notice(NoSelfHack), None, None)]
    ensures fault == NoFault && req.replyTo.Some? && req.replyTo.value.sender == Some(ownerId) && ownerId != botId ==>
              t == [GetMe, Reply(Notice(NoOwnerHack), None, None)]
  {
    if GuardsPass(req, botId, ownerId) then
      if fault == NoFault then
        HackSuccessOrder(req, botId, ownerId, HackFrames);
        HackSuccessCounts(req, botId, ownerId, HackFrames);
        HackCommandTrace(req, botId, ownerId, HackFrames, fault)
      else HackCommandTrace(req, botId, ownerId, HackFrames, fault)
    else if req.replyTo.None? then
      HackNeedsReply(req, botId, ownerId, HackFrames, fault);
      HackCommandTrace(req, botId, ownerId, HackFrames, fault)
    else if req.replyTo.value.sender.None? then
      HackWithoutAuthor(req, botId, ownerId, HackFrames, fault);
      HackCommandTrace(req, botId, ownerId, HackFrames, fault)
    else
      HackRefusals(req, botId, ownerId, HackFrames, fault);
      HackCommandTrace(req, botId, ownerId, HackFrames, fault)
  }
}
