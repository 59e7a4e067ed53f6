# Raail bot core: hack-plugin animation and plugin start-up, in Dafny

This project models two pieces of the Telegram bot's logic as pure Dafny functions and proves properties about them.

- **The hack plugin** (`plugins/hack.py`). `/hack` runs its guards in a fixed order: the message must be a reply, the target must not be the bot, and the target must not be the owner. It then replies "initiating" and animates a list of frames. A scroll-back log keeps the last six lines. Every edit re-renders the whole log inside a code fence, each edit is followed by a pause, and one terminal edit with a single link button comes last. Also modelled: the plugin's help-page callback (answer, then one edit with one "Back" button carrying `"help"`) and its `setup` hook.
- **Start-up and the core menu** (`main.py`). The loop loads every `.py` directory entry as a module. It registers one command handler per name in `module.commands` and one catch-all callback handler when the module defines `callback`. Then come `/start` and the start-menu callback, in that order. `/start` replies with a one-row, two-button menu (`"info"`, `"help"`). The callback answers first and then shows the info page or the feature list.

Transport calls (`get_me`, `reply_text`, `edit_text`, `edit_message_text`, `query.answer`) are abstract `Action`s in a returned trace (module `Telegram`). A handler is a `Plan`: the calls it makes when nothing raises. `Perform` runs a plan under a `Fault` that names the call that raises. In the hack plugin a `try`/`except` boundary turns a failure into exactly one `ReportError` after the failed call. The handlers in `main.py` have no boundary, so their trace just stops. The directory listing, the imported modules' attributes, the bot's id and the owner's id are parameters.

Modules: `Wrappers` (Option, Result), `Lines` (Python's `str.split("\n")` and `"\n".join`), `Telegram` (texts, buttons, actions, registrations, the exception boundary), `Patterns` (the two callback patterns), `Hack`, `Loader` and `Bot`.

Behaviour of the code that the model keeps:
- The callback patterns are matched with Python's `re.match`, where `$` also matches just before one trailing newline. So `^(info|help)$` admits `"info"`, `"help"`, `"info\n"` and `"help\n"`, and `^plugin::hack$` admits `"plugin::hack"` and `"plugin::hack\n"`. For the two trailing-newline payloads, the start-menu callback answers and edits nothing (`Bot.CoreRouting`).
- The loader stops at the first failing import or missing attribute, because `main.py` has no `try` around the loop.
- `main.py` reads `module.commands` and `module.handle`, while `plugins/hack.py` exposes `setup(app)` and `get_info()`. Each file is modelled as written.
- All handlers share the library's default group, where a callback query goes to the first registered handler whose filter admits it. A plugin that defines `callback` gets a catch-all handler registered before the start-menu callback, so the first such plugin in listing order receives `"info"` and `"help"` (indeed every payload) and the start-menu callback receives nothing (`Bot.StartMenuDispatch`).

## Model

| member | source | states |
|---|---|---|
| Lines.Split | plugins/hack.py:47 | `str.split("\n")` always yields at least one piece and no piece contains a newline |
| Lines.SplitLength | plugins/hack.py:47 | a frame yields exactly one line more than it has newlines (counted independently, by multiset) |
| Lines.JoinSplit | plugins/hack.py:47-50 | joining the lines of a split with newlines gives back the frame: splitting loses nothing |
| Lines.Join | plugins/hack.py:50 | `"\n".join`; no ensures of its own: `Lines.JoinSplit` and `Lines.SplitJoin` state it as the inverse of `Lines.Split` |
| Telegram.Perform | plugins/hack.py:10-61 | calls up to and including a failing one happen and none after it; with the plugin's `try`/`except` exactly one error report follows, as the last action; when nothing raises the trace is the plan, and when the handler's own code raises after its last call the report (if any) follows the whole plan |
| Patterns.Accepts | main.py:44 | `^(info|help)$` accepts exactly "info", "help" and their single-trailing-newline variants; `^plugin::hack$` exactly "plugin::hack" and its variant |
| Patterns.PatternsDisjoint | plugins/hack.py:90 | no payload is accepted by both the hack help pattern and the start-menu pattern |
| Hack.Push | plugins/hack.py:47-49 | one loop pass leaves at most 6 lines in the log, whatever the frame |
| Hack.Scroll | plugins/hack.py:44-49 | after any frames the log holds at most 6 lines, and at least one once a frame has been seen |
| Hack.PushGrowth | plugins/hack.py:47-49 | a frame adds newlines + 1 lines; the log grows by that much up to the cap of 6 and is a suffix of the old log followed by the frame's lines; an empty frame adds one empty line |
| Hack.ScrollLinesAreLines | plugins/hack.py:47-49 | no line kept in the log contains a newline |
| Hack.ScrollKeepsLastLines | plugins/hack.py:44-49 | the log after frames f1..fk is exactly the last min(6, n) of the n lines of all their splits, even when one frame has more than 6 lines |
| Hack.ScrollWithoutTruncation | plugins/hack.py:48 | while at most 6 lines have arrived nothing is dropped: the log is the full concatenation |
| Hack.Render | plugins/hack.py:50 | an edit text opens with the fence line and closes with the fence, with the joined log between them |
| Hack.RenderShowsWholeLog | plugins/hack.py:50-51 | the text between the fences splits back into exactly the log, so each edit carries the whole buffer, not a delta |
| Hack.Animate | plugins/hack.py:44-52 | the loop of plugins/hack.py, mutating the log in place, ends with the last 6 lines of all frames and issues the same edits as the functional definition |
| Hack.FrameEdits | plugins/hack.py:46-52 | the edits and pauses of the animation loop; no ensures of its own: `Hack.Animate`, `Hack.FrameEditsLength` and `Hack.FrameEditsInOrder` state its behaviour |
| Hack.FrameEditsLength | plugins/hack.py:46-52 | the loop makes two actions per frame and exactly one edit per frame |
| Hack.FrameEditsInOrder | plugins/hack.py:46-52 | the i-th frame edit shows the log after frame i and is followed by its pause, in frame order |
| Hack.HackPlan | plugins/hack.py:9-57 | the calls `/hack` makes for any frame list when nothing raises; no ensures of its own: the guard and success lemmas below state its behaviour |
| Hack.HackCommandTrace | plugins/hack.py:9-61 | `/hack` inside its `try`/`except`; no ensures of its own: `Hack.HackNeedsReply`, `Hack.HackWithoutAuthor`, `Hack.HackRefusals`, `Hack.HackInitiatesBeforeEdits`, `Hack.HackSuccessOrder` and `Hack.HackSuccessCounts` state its behaviour |
| Hack.HackNeedsReply | plugins/hack.py:11-12 | without a replied-to message only the warning reply is sent (plus a report if it raises), and without faults the trace is exactly that reply; nothing is edited |
| Hack.HackWithoutAuthor | plugins/hack.py:14-18 | a replied-to message without an author fails after `get_me` and yields one error report |
| Hack.HackRefusals | plugins/hack.py:16-21 | after `get_me`, a bot target gets the self refusal and an owner target the owner refusal, bot check first; the refusal is sent unless `get_me` raises, and without faults the trace is exactly `get_me` then that refusal; nothing is edited |
| Hack.HackInitiatesBeforeEdits | plugins/hack.py:18-23 | when all guards pass, whenever any edit happens the initiating reply, carrying the replied-to message's id, is the second action and precedes it |
| Hack.HackSuccessOrder | plugins/hack.py:23-57 | without faults: get_me, the initiating reply, one whole-log edit and one pause per frame in order, then the completion edit with a one-row one-button keyboard as the last action |
| Hack.HackSuccessCounts | plugins/hack.py:46-57 | without faults there are exactly frames + 1 edits and no error report |
| Hack.HackCommandHandler | plugins/hack.py:9-61 | with the plugin's 14 frames the success path has 31 actions and 15 edits; a stopping guard never edits, and without faults each refusing guard's trace is exactly its own notice (after `get_me` for the target checks) |
| Hack.HelpCallbackTrace | plugins/hack.py:63-77 | the query is answered exactly once, first; without faults the trace is that answer and one edit showing the help page with one row holding one button whose payload is "help"; any edit shows the help page; a failing call is reported exactly once, as the last action, and nothing is reported otherwise |
| Hack.Setup | plugins/hack.py:88-90 | `setup` binds the `hack` coroutine to the `hack` command, then `hack_help_callback` to a callback pattern that accepts exactly "plugin::hack" (and its trailing-newline variant) |
| Loader.IsPluginFile | main.py:14 | `filename.endswith(".py")`; no ensures of its own: `Loader.ModuleName` states that such a name is a module name followed by ".py" |
| Loader.ModuleName | main.py:15 | the module name plus ".py" is the original file name |
| Loader.ModuleNameInjective | main.py:13-15 | two plugin files never yield the same module name |
| Loader.CommandRegistrations | main.py:17-18 | one registration per command name, in list order, each bound to the module's `handle` |
| Loader.LoadModule | main.py:16-20 | a module loads iff it imports, has `commands`, and has `handle` when a command exists; then its commands are registered in order and one catch-all callback handler is added, last, iff it defines `callback` |
| Loader.LoadAll | main.py:13-20 | the start-up loop over the listing; no ensures of its own: `Loader.LoadAllSucceeds`, `Loader.LoadAllFirstError`, `Loader.LoadAllPrefix` and the per-module lemmas state its behaviour |
| Loader.LoadAllSucceeds | main.py:13-16 | the start-up loop completes iff every ".py" entry's module loads; other entries are ignored |
| Loader.LoadAllFirstError | main.py:13-20 | when start-up stops, it stops with the error of the first ".py" entry whose module does not load, and every earlier ".py" entry's module loaded |
| Loader.LoadAllPrefix | main.py:13-20 | the loop only appends: the registrations made for the first k entries are a prefix of those made for the whole listing, so modules register in listing order |
| Loader.LoadAllStep | main.py:16-20 | a ".py" entry appends exactly its module's block to the registrations of the entries before it |
| Loader.LoadAllFromListing | main.py:13-20 | every registration the loop makes belongs to the module of some ".py" entry of the listing |
| Loader.ModuleBlockCounts | main.py:17-20 | a module's block registers exactly its command list, and one callback handler iff it defines `callback` |
| Loader.LoadAllPerModule | main.py:13-20 | in the whole registration list, each loaded module's commands are exactly its `commands` list in order, and it has one callback handler iff it defines `callback`, none otherwise |
| Loader.ModuleBlockCallbacks | main.py:19-20 | a module's block holds a callback handler iff the module defines `callback`, and it is the module's catch-all one |
| Loader.LoadAllCallbacks | main.py:13-20 | every callback handler the loop registers is a plugin's catch-all one, and there is none iff no plugin file's module defines `callback` |
| Loader.FirstPluginCallback | main.py:13-20 | the first ".py" entry whose module defines `callback` owns a catch-all callback registration with no callback registration before it |
| Bot.StartTrace | main.py:22-28 | `/start` sends one welcome reply whose keyboard is one row of two buttons with payloads "info" then "help", both accepted by the start-menu pattern and not by the hack pattern |
| Bot.CoreCallbackTrace | main.py:30-41 | the query is answered exactly once, first; with no fault "info" gives the info edit, "help" the feature-list edit, and any other payload no edit; a fault ends it with no report |
| Bot.CoreRouting | main.py:30-44 | the start-menu pattern admits exactly four payloads, never "plugin::hack"; the two trailing-newline ones are answered without any edit |
| Bot.BackButtonShowsFeatureList | plugins/hack.py:67 | the help page's "Back" payload is accepted by the start-menu pattern and not by the hack pattern, and the start-menu callback shows the feature list for it |
| Bot.Startup | main.py:12-44 | start-up succeeds iff every plugin loads; then all plugin handlers come first, followed by `/start` and then the start-menu callback as the last two registrations |
| Bot.FirstCallback | main.py:19-44 | the handler chosen for a payload is the handler of a callback registration that admits it with no earlier one admitting it; there is none iff no callback registration admits it |
| Bot.FirstCallbackAt | main.py:19-44 | an admitting callback registration with none admitting before it is the one the payload goes to |
| Bot.FirstPluginTakesAll | main.py:13-44 | the first ".py" entry whose module defines `callback` receives every callback payload after start-up |
| Bot.StartMenuDispatch | main.py:13-44 | after start-up, with no plugin defining `callback` a payload goes to the start-menu callback iff its pattern accepts it (else to no handler); otherwise every payload goes to the catch-all handler of the first ".py" entry, in listing order, whose module defines `callback`, and none to the start menu |

## Left out

- Telegram transport: update delivery, `ApplicationBuilder` and `run_polling`. Calls appear only as abstract actions. Of the library's dispatch, only the first-match rule within the default group is modelled (`Bot.FirstCallback`); command dispatch is not. `reply_text`'s default quoting is kept as "no explicit reply id".
- Which message an edit targets: an `Edit` action names no message. In `plugins/hack.py` every animation edit and the completion edit go to the bot's own "initiating" reply, while `edit_message_text` in `main.py` and in `hack_help_callback` edits the message carrying the pressed button. The model does not tell these targets apart.
- `asyncio.sleep(0.85)`: the timing and the concurrency are not modelled. One `Sleep` action follows each frame edit. A cancellation during the sleep is not an `Exception` and is not modelled.
- Environment and configuration (`load_dotenv`, `os.getenv`, `int(os.getenv("OWNER_ID"))`): the owner id and the bot id are parameters. A failing integer conversion at import time is not modelled.
- `os.listdir` and `importlib.import_module`: the listing is a sequence and the importable modules are a map from name to their `commands`/`handle`/`callback` attributes. An import that raises is `ImportFailed`. A `commands` value that is not a list of strings is not modelled.
- `send_error_to_support` (from `plugins/db.py`, which is not part of this model) and `traceback`: a report is one `ReportError` action. Its text and its own possible failure are not modelled.
- Display strings, emoji and the file link are opaque constants. The 14 animation frames keep their line structure in plain text without emoji.
- Command-name checks in the library's `CommandHandler` (names are lower-cased, and a name outside its allowed form raises `ValueError`, which would end start-up because `main.py` has no `try`): the library is not part of this model, so `Loader.LoadModule` registers every name in `commands` as given.
- Updates without a message: the library's `CommandHandler` can also fire on an edited message, where `update.message` is absent. In `plugins/hack.py` reading it raises and the failure is reported; in `main.py`'s `start` it raises with no boundary. `Hack.Request` and `Bot.StartTrace` assume a message is present.
- `get_info()` and `test()` in `plugins/hack.py`: neither the loader nor any handler here calls them.
- Registry, help menu built from a registry, `"main_menu"`, generic `"plugin::" + key` routing, duplicate-command rejection, the unknown-payload fallback and per-plugin load-error isolation: these have no code in these files.
- Hack.HackCommandHandler: its contract speaks of the real frame list only through counts. The exact final log for those frames is not stated, because the solver cannot evaluate the literal frames cheaply. `Hack.ScrollKeepsLastLines` states it for every frame list.
