# EOCV-Sim run-loop and coordination core, in Dafny

This project models the coordinating core of EOCV-Sim, a desktop simulator
for EasyOpenCV vision pipelines. The core has four parts:

- **`EventHandler`** (`event_handler.dfy`): the listener registry behind
  `onMainUpdate`. It covers one-shot and persistent registration,
  `removeListener`, `getListener`/`getKListener`, and the dispatch pass `run`.
  `run` takes a snapshot of the registry and invokes every listener in it
  once. It logs the exception of a listener that throws and drops one-shot
  listeners afterwards.
- **`MainLoop`** (`main_loop.dfy`) and **`Title`** (`title.dfy`): one pass
  of the simulator's `while (!Thread.interrupted())` loop and the whole
  loop. A pass does the following:
  - dispatches `onMainUpdate`;
  - composes the window title;
  - updates the input source and the tuner;
  - skips the rest of the pass when there is no frame;
  - runs the pipeline under a `try`, posts its output unless paused, and
    reports or clears the telemetry error item;
  - shows the telemetry, counts the frame unless paused, and syncs with the
    FPS limiter, breaking out of the loop if that sync is interrupted.

  Each pass is a trace of `Effect`s. What the rest of the simulator reports
  during a pass (frame, pause state, exceptions, interrupts) is a `Pass`
  parameter. The loop is defined for any dispatch of `onMainUpdate`.
  `Dispatcher(n)` is the simulator's dispatch: it first applies the registry
  calls other threads posted since the previous pass (`Pass.posted`) and then
  runs the handler. `Title` shows that the title string can be parsed back into
  the figures it shows.
- **`Lifecycle`** (`lifecycle.dfy`): `init`, with its process-wide
  "native library already loaded" flag and its fallback loader, plus
  `destroy(reason)`, `destroy()` and `restart()`.
- **`TunableConfig`** (`tunable_config.dfy`): how a tuner field's config
  panel resolves its `Config`. A config for the field's own class name wins
  over the global one. The panel also publishes its config globally or for
  its type, edits the slider range, and hands the range to the sliders when
  the panel closes. `Config` objects are shared by reference in Kotlin, so
  they live in a heap of references.

`wrappers.dfy` holds the `Option` type.

## Model

| member | source | states |
|---|---|---|
| `EventHandler.Register` | EOCV-Sim/src/main/java/com/github/serivesmejia/eocvsim/util/event/EventHandler.kt:62-67 | `doOnce` stores the listener under `idCount + 1`, sets its id to that key and returns it. Every other entry is untouched. As written the counter never moves; incrementing, it becomes the new id. |
| `EventHandler.RegisterKeepsKeys` | EOCV-Sim/src/main/java/com/github/serivesmejia/eocvsim/util/event/EventHandler.kt:62-67 | A registry whose entries are keyed by their own ids stays so after a registration. |
| `EventHandler.RegisterPersistent` | EOCV-Sim/src/main/java/com/github/serivesmejia/eocvsim/util/event/EventHandler.kt:73-76 | `doPersistent` has the same effect as registering the listener with `persistent` already set. |
| `EventHandler.RegisterCallback` | EOCV-Sim/src/main/java/com/github/serivesmejia/eocvsim/util/event/EventHandler.kt:69-71 | The runnable/lambda overloads store a one-shot `KEventListener` carrying the callback. |
| `EventHandler.Remove` | EOCV-Sim/src/main/java/com/github/serivesmejia/eocvsim/util/event/EventHandler.kt:89 | Removal drops exactly the given key and returns what was stored there. An absent id changes nothing and returns null. |
| `EventHandler.RemoveIdempotent` | EOCV-Sim/src/main/java/com/github/serivesmejia/eocvsim/util/event/EventHandler.kt:89 | Removing an id twice has the same effect as removing it once. The second removal returns null. |
| `EventHandler.GetListener` | EOCV-Sim/src/main/java/com/github/serivesmejia/eocvsim/util/event/EventHandler.kt:82 | The lookup finds a listener exactly when its id is registered, and returns that entry. |
| `EventHandler.GetKListener` | EOCV-Sim/src/main/java/com/github/serivesmejia/eocvsim/util/event/EventHandler.kt:84-87 | The lookup finds a listener exactly when the id is registered to a `KEventListener`, and then agrees with `getListener`. |
| `EventHandler.CallbackIsKListener` | EOCV-Sim/src/main/java/com/github/serivesmejia/eocvsim/util/event/EventHandler.kt:69-71 | A callback registered through the lambda overload is found again by `getKListener` under the returned id. |
| `EventHandler.PlainIsNotKListener` | EOCV-Sim/src/main/java/com/github/serivesmejia/eocvsim/util/event/EventHandler.kt:84-87 | A plain `EventListener` is found by `getListener` but never by `getKListener`. |
| `EventHandler.SortedKeysSpec` | EOCV-Sim/src/main/java/com/github/serivesmejia/eocvsim/util/event/EventHandler.kt:35-40 | The snapshot order lists every key exactly once, in strictly ascending order, which is `HashMap`'s order for small integer keys. |
| `EventHandler.SortedKeys` | EOCV-Sim/src/main/java/com/github/serivesmejia/eocvsim/util/event/EventHandler.kt:35-40 | No contract; defines the order of the `listeners` snapshot as the keys in ascending order. `SortedKeysSpec` states what that order is. |
| `EventHandler.Listeners` | EOCV-Sim/src/main/java/com/github/serivesmejia/eocvsim/util/event/EventHandler.kt:35-40 | The snapshot has one element per registered entry: the value under the i-th key in order. |
| `EventHandler.SnapshotIsRegistry` | EOCV-Sim/src/main/java/com/github/serivesmejia/eocvsim/util/event/EventHandler.kt:35-40 | Every registered listener appears in the snapshot. |
| `EventHandler.SnapshotById` | EOCV-Sim/src/main/java/com/github/serivesmejia/eocvsim/util/event/EventHandler.kt:35-42 | In a registry keyed by id, the snapshot lists each entry under its own id, with ids ascending. |
| `EventHandler.RunOver` | EOCV-Sim/src/main/java/com/github/serivesmejia/eocvsim/util/event/EventHandler.kt:49-59 | The loop invokes every snapshot listener exactly once and in order, whatever the callbacks do to the map meanwhile. An error is logged for exactly the listeners that throw, in order. |
| `EventHandler.Apply` | EOCV-Sim/src/main/java/com/github/serivesmejia/eocvsim/util/event/EventHandler.kt:62-89 | No contract; defines one registry call a callback makes (`doOnce`, `doPersistent`, `removeListener`) as the corresponding operation. |
| `EventHandler.ApplyOps` | EOCV-Sim/src/main/java/com/github/serivesmejia/eocvsim/util/event/EventHandler.kt:62-89 | No contract; defines a callback's registry calls, applied in order. |
| `EventHandler.Fire` | EOCV-Sim/src/main/java/com/github/serivesmejia/eocvsim/util/event/EventHandler.kt:49-58 | No contract; defines one turn of `run`: invoke the callback, log its id if it threw, and remove it by id unless it is persistent. |
| `EventHandler.Run` | EOCV-Sim/src/main/java/com/github/serivesmejia/eocvsim/util/event/EventHandler.kt:48-60 | `run` invokes exactly the listeners registered when it starts, in key order, and logs one error per throwing listener. |
| `EventHandler.SingleSlotAtMostOne` | EOCV-Sim/src/main/java/com/github/serivesmejia/eocvsim/util/event/EventHandler.kt:62-66 | As written, the registry never holds more than one listener. |
| `EventHandler.AsWrittenOpsKeepSlot` | EOCV-Sim/src/main/java/com/github/serivesmejia/eocvsim/util/event/EventHandler.kt:62-89 | As written, no sequence of registrations and removals moves the counter, and the only possible key stays `idCount + 1`. |
| `EventHandler.RunKeepsSlot` | EOCV-Sim/src/main/java/com/github/serivesmejia/eocvsim/util/event/EventHandler.kt:48-66 | As written, a dispatch never moves the counter, and the registry keeps its single possible key, whatever the callbacks register or remove. |
| `EventHandler.DriveKeepsSlot` | EOCV-Sim/src/main/java/com/github/serivesmejia/eocvsim/util/event/EventHandler.kt:44-89 | As written, registry calls and dispatches in any order keep the counter where it started and the single possible key. |
| `EventHandler.EveryIdIsOne` | EOCV-Sim/src/main/java/com/github/serivesmejia/eocvsim/util/event/EventHandler.kt:44-66 | Whatever registry calls and dispatches a fresh handler has been through, in any order, it holds at most one listener and the next registration is given id 1, because `idCount` is never written. |
| `EventHandler.RegisterReplaces` | EOCV-Sim/src/main/java/com/github/serivesmejia/eocvsim/util/event/EventHandler.kt:62-66 | As written, a registration replaces whatever was registered before; the map holds only the new listener. |
| `EventHandler.AsWrittenPostsKeepLast` | EOCV-Sim/src/main/java/com/github/serivesmejia/eocvsim/util/event/EventHandler.kt:62-66 | As written, `doOnce` calls on an empty or single-slot registry leave only the last listener posted, under `idCount + 1`. |
| `EventHandler.AsWrittenRunAfterPosts` | EOCV-Sim/src/main/java/com/github/serivesmejia/eocvsim/util/event/EventHandler.kt:48-66 | As written, a dispatch after `doOnce` posts into an empty registry invokes only the last listener posted, under id `idCount + 1`, and nothing when nothing was posted. |
| `EventHandler.RemovingTheSlotEmpties` | EOCV-Sim/src/main/java/com/github/serivesmejia/eocvsim/util/event/EventHandler.kt:89 | Removing key `idCount + 1` empties a registry that holds at most that key. |
| `EventHandler.OneShotDispatchEmpties` | EOCV-Sim/src/main/java/com/github/serivesmejia/eocvsim/util/event/EventHandler.kt:56-58 | As written, a dispatch over one-shot listeners leaves the registry empty, even if the callback registered a listener while running. |
| `EventHandler.OneShotFireEmpties` | EOCV-Sim/src/main/java/com/github/serivesmejia/eocvsim/util/event/EventHandler.kt:51-58 | As written, firing the one-shot listener in the single slot leaves the registry empty, whatever its callback registered. |
| `EventHandler.SecondRegistrationDropsFirst` | EOCV-Sim/src/main/java/com/github/serivesmejia/eocvsim/util/event/EventHandler.kt:62-66 | As written, two `doOnce` calls on a fresh handler both return id 1, and only the second listener ever runs. |
| `EventHandler.QuietRunOver` | EOCV-Sim/src/main/java/com/github/serivesmejia/eocvsim/util/event/EventHandler.kt:56-58 | When callbacks touch no registry, a pass removes exactly the ids of its one-shot listeners. |
| `EventHandler.PersistentRunUnchanged` | EOCV-Sim/src/main/java/com/github/serivesmejia/eocvsim/util/event/EventHandler.kt:56-58 | A dispatch over persistent listeners with quiet callbacks leaves the registry as it was. |
| `EventHandler.PersistentFiresEveryDispatch` | EOCV-Sim/src/main/java/com/github/serivesmejia/eocvsim/util/event/EventHandler.kt:48-60 | Persistent listeners stay registered and fire once on each of `n` dispatches, in key order each time. |
| `EventHandler.OneShotRunEmpties` | EOCV-Sim/src/main/java/com/github/serivesmejia/eocvsim/util/event/EventHandler.kt:56-58 | A dispatch over one-shot listeners with quiet callbacks empties the registry. |
| `EventHandler.PostingKeepsQuiet` | EOCV-Sim/src/main/java/com/github/serivesmejia/eocvsim/util/event/EventHandler.kt:62-67 | Posting one-shot runnables that make no registry calls of their own keeps every registered listener one-shot and quiet, under either numbering. |
| `EventHandler.OneShotFiresOnce` | EOCV-Sim/src/main/java/com/github/serivesmejia/eocvsim/util/event/EventHandler.kt:48-60 | A one-shot listener fires once: the next dispatch invokes nothing. |
| `EventHandler.EmptyStaysQuiet` | EOCV-Sim/src/main/java/com/github/serivesmejia/eocvsim/util/event/EventHandler.kt:48-60 | Dispatching an empty registry any number of times invokes nothing and changes nothing. |
| `EventHandler.RegisterKeepsEarlier` | EOCV-Sim/src/main/java/com/github/serivesmejia/eocvsim/util/event/EventHandler.kt:62-66 | With an advancing counter, a registration takes a fresh id and keeps every earlier entry. |
| `EventHandler.BothRegistrationsRun` | EOCV-Sim/src/main/java/com/github/serivesmejia/eocvsim/util/event/EventHandler.kt:62-66 | With an advancing counter, two `doOnce` calls get ids 1 and 2, and a dispatch runs both in registration order. |
| `EventHandler.IncrementingOpsGrow` | EOCV-Sim/src/main/java/com/github/serivesmejia/eocvsim/util/event/EventHandler.kt:62-76 | With an advancing counter and no removals, registrations only add entries, each under a fresh id. |
| `EventHandler.RegistrationsDuringRunSurvive` | EOCV-Sim/src/main/java/com/github/serivesmejia/eocvsim/util/event/EventHandler.kt:48-66 | With an advancing counter, and provided no callback in the snapshot calls `removeListener`, every listener registered by a callback during `run` is still registered afterwards, and the counter has advanced once per registration. |
| `Title.DecimalRoundTrip` | EOCV-Sim/src/main/java/com/github/serivesmejia/eocvsim/EOCVSim.kt:178-181 | An integer's decimal text in the title parses back to that integer, and contains no space. |
| `Title.UnsignedDigits` | EOCV-Sim/src/main/java/com/github/serivesmejia/eocvsim/EOCVSim.kt:178-181 | A non-negative integer's digits parse back to it, start with a digit and contain no space. |
| `Title.SignedDigits` | EOCV-Sim/src/main/java/com/github/serivesmejia/eocvsim/EOCVSim.kt:178-181 | A negative integer's minus sign and digits parse back to it and contain no space. |
| `Title.DecimalInjective` | EOCV-Sim/src/main/java/com/github/serivesmejia/eocvsim/EOCVSim.kt:178-181 | Different integers print differently. |
| `Title.Decimal` | EOCV-Sim/src/main/java/com/github/serivesmejia/eocvsim/EOCVSim.kt:178-181 | No contract; defines `Int.toString()` as used in the title: a minus sign for negatives, then the decimal digits. |
| `Title.SplitWord` | EOCV-Sim/src/main/java/com/github/serivesmejia/eocvsim/EOCVSim.kt:178-181 | Splitting the title at the first space loses nothing. |
| `Title.Segment` | EOCV-Sim/src/main/java/com/github/serivesmejia/eocvsim/EOCVSim.kt:178-181 | No contract; defines one parenthesised figure, `" (" + n + suffix`. |
| `Title.VisualizerTitle` | EOCV-Sim/src/main/java/com/github/serivesmejia/eocvsim/EOCVSim.kt:176-191 | No contract; defines `updateVisualizerTitle`: the pipeline FPS, poster FPS, optional pause marker and memory segments, after the heading. `TitleRoundTrip` and `TitleHeading` state what it promises. |
| `Title.Heading` | EOCV-Sim/src/main/java/com/github/serivesmejia/eocvsim/EOCVSim.kt:185-189 | No contract; defines the title's heading: the current pipeline's name, or `"No pipeline"`. |
| `Title.SegmentOf` | EOCV-Sim/src/main/java/com/github/serivesmejia/eocvsim/EOCVSim.kt:178-181 | A `" (<n><suffix>"` segment is read back as `n`, leaving the rest of the title. |
| `Title.TailRoundTrip` | EOCV-Sim/src/main/java/com/github/serivesmejia/eocvsim/EOCVSim.kt:180-183 | The optional `" (Paused)"` marker followed by the memory segment reads back as the pause state and the memory figure. |
| `Title.TitleRoundTrip` | EOCV-Sim/src/main/java/com/github/serivesmejia/eocvsim/EOCVSim.kt:176-191 | The title `updateVisualizerTitle` sets parses back into the same pipeline FPS, poster FPS, pause state and memory figure. |
| `Title.TitleDeterminesFields` | EOCV-Sim/src/main/java/com/github/serivesmejia/eocvsim/EOCVSim.kt:176-191 | For a given pipeline, two titles are equal only when all four figures are equal. |
| `Title.TitleHeading` | EOCV-Sim/src/main/java/com/github/serivesmejia/eocvsim/EOCVSim.kt:185-189 | The title starts with the current pipeline's name, or with `"No pipeline"` when there is none. |
| `Title.NoPipelineIsAmbiguous` | EOCV-Sim/src/main/java/com/github/serivesmejia/eocvsim/EOCVSim.kt:185-189 | A pipeline named `"No pipeline"` gets the same title as no pipeline at all. |
| `MainLoop.ErrorItemAppend` | EOCV-Sim/src/main/java/com/github/serivesmejia/eocvsim/EOCVSim.kt:117-128 | The error item shows the last value assigned to it: a later assignment overrides an earlier one. |
| `MainLoop.GuardedEffects` | EOCV-Sim/src/main/java/com/github/serivesmejia/eocvsim/EOCVSim.kt:107-129 | The `try` block always starts with the pipeline update. It posts the output exactly when the update returned and the pipeline is not paused. It never counts, syncs or touches the input sources. |
| `MainLoop.GuardedErrorItem` | EOCV-Sim/src/main/java/com/github/serivesmejia/eocvsim/EOCVSim.kt:107-129 | After the `try` block, the snapshotted telemetry's error item holds the fixed marker and message when the update or the post threw. Otherwise it holds empty caption and value. With no telemetry, nothing is assigned. |
| `MainLoop.GuardedRefreshes` | EOCV-Sim/src/main/java/com/github/serivesmejia/eocvsim/EOCVSim.kt:107-129 | The `try`/`catch` pushes telemetry `t` to the display (`telemetry.update()`) exactly when the block threw and `t` is the telemetry read at the start of the pass. |
| `MainLoop.ReportedItem` | EOCV-Sim/src/main/java/com/github/serivesmejia/eocvsim/EOCVSim.kt:124-128 | The `catch` branch assigns the marker and message to exactly the snapshotted telemetry. |
| `MainLoop.ClearedItem` | EOCV-Sim/src/main/java/com/github/serivesmejia/eocvsim/EOCVSim.kt:117-120 | The success branch clears exactly the snapshotted telemetry's error item. |
| `MainLoop.Guarded` | EOCV-Sim/src/main/java/com/github/serivesmejia/eocvsim/EOCVSim.kt:107-129 | No contract; defines the try/catch around `pipelineManager.update` and `postMat`, per outcome. `GuardedEffects`, `GuardedErrorItem` and `GuardedRefreshes` state its promises. |
| `MainLoop.BackEffects` | EOCV-Sim/src/main/java/com/github/serivesmejia/eocvsim/EOCVSim.kt:131-142 | After the guarded block, a pass with a frame always syncs with the limiter. It counts the frame exactly when unpaused, and posts nothing. |
| `MainLoop.Back` | EOCV-Sim/src/main/java/com/github/serivesmejia/eocvsim/EOCVSim.kt:131-142 | No contract; defines what follows the pipeline block: `updateTelemetry`, the frame count when unpaused, then the limiter sync. |
| `MainLoop.Front` | EOCV-Sim/src/main/java/com/github/serivesmejia/eocvsim/EOCVSim.kt:92-103 | No contract; defines what every pass does before the frame check: dispatch `onMainUpdate`, update the title, the input source and the tuner. |
| `MainLoop.PassEffects` | EOCV-Sim/src/main/java/com/github/serivesmejia/eocvsim/EOCVSim.kt:92-144 | No contract; defines one pass of the `while` loop given what the dispatch recorded. `PassEffectsMembers` and `PassShape` state its promises. |
| `MainLoop.PassEffectsMembers` | EOCV-Sim/src/main/java/com/github/serivesmejia/eocvsim/EOCVSim.kt:92-144 | In one pass, the tuner always updates. The output is posted iff there is a frame, the update returned and the pipeline is unpaused. The frame is counted iff there is a frame and the pipeline is unpaused. The limiter syncs iff there is a frame. The interrupt is re-asserted iff the sync was interrupted. |
| `MainLoop.PassDisplayMembers` | EOCV-Sim/src/main/java/com/github/serivesmejia/eocvsim/EOCVSim.kt:92-134 | In one pass, the telemetry re-read after the update is shown iff there is a frame, and the pipeline error is logged iff the guarded block threw. |
| `MainLoop.PassRefreshes` | EOCV-Sim/src/main/java/com/github/serivesmejia/eocvsim/EOCVSim.kt:92-134 | In one pass, telemetry `t` is pushed by `telemetry.update()` iff the guarded block threw and `t` was the telemetry read at the start of the pass. |
| `MainLoop.ErrorItemBeforeDisplay` | EOCV-Sim/src/main/java/com/github/serivesmejia/eocvsim/EOCVSim.kt:116-131 | Every assignment to the error item in a pass comes before the pass updates the displayed telemetry. |
| `MainLoop.NoErrorItem` | EOCV-Sim/src/main/java/com/github/serivesmejia/eocvsim/EOCVSim.kt:130-144 | Effects that never assign the error item leave it unassigned. |
| `MainLoop.PassShape` | EOCV-Sim/src/main/java/com/github/serivesmejia/eocvsim/EOCVSim.kt:92-129 | A pass starts with dispatch, title, input-source update (with the pause state) and tuner update, in that order. Without a frame it ends there. With one, the pipeline update comes next, and the error item ends as the guarded block left it. |
| `MainLoop.TickBreaks` | EOCV-Sim/src/main/java/com/github/serivesmejia/eocvsim/EOCVSim.kt:137-142 | A pass breaks out of the loop exactly when it re-asserted the interrupt. Together with `PassEffectsMembers`, that is exactly when it had a frame and its limiter sync was interrupted. |
| `MainLoop.Tick` | EOCV-Sim/src/main/java/com/github/serivesmejia/eocvsim/EOCVSim.kt:92-144 | No contract; defines one iteration of the loop body: dispatch, then `PassEffects`, breaking when the sync is interrupted. `TickBreaks` states when it breaks. |
| `MainLoop.TickSpec` | EOCV-Sim/src/main/java/com/github/serivesmejia/eocvsim/EOCVSim.kt:94-99 | With the simulator's dispatch, a pass first applies the registry calls other threads posted since the last dispatch. It then dispatches `onMainUpdate`, invoking exactly the listeners registered at that point in snapshot order and logging one error per throwing listener. It sets a title that parses back to the pass's figures, and continues with the registry the dispatch left. |
| `MainLoop.PassDispatch` | EOCV-Sim/src/main/java/com/github/serivesmejia/eocvsim/EOCVSim.kt:97 | No contract; defines `onMainUpdate.run()` over the registry as the calls posted since the last dispatch left it. |
| `MainLoop.Dispatcher` | EOCV-Sim/src/main/java/com/github/serivesmejia/eocvsim/EOCVSim.kt:97 | No contract; defines the simulator's dispatch, `PassDispatch` with the given numbering. |
| `MainLoop.Loop` | EOCV-Sim/src/main/java/com/github/serivesmejia/eocvsim/EOCVSim.kt:92-144 | For any dispatch, the loop enters passes until the condition sees an interrupt or a sync is interrupted; no earlier pass was interrupted. It stops exactly for one of those two reasons. Without either, it runs every pass offered. |
| `MainLoop.LoopHandler` | EOCV-Sim/src/main/java/com/github/serivesmejia/eocvsim/EOCVSim.kt:92-97 | When the loop ends, `onMainUpdate` has been dispatched exactly once per pass entered. |
| `MainLoop.LoopStep` | EOCV-Sim/src/main/java/com/github/serivesmejia/eocvsim/EOCVSim.kt:92-144 | One entered pass either breaks, ending the loop with that pass's registry, or hands its registry to the loop over the remaining passes. |
| `MainLoop.HandlerAfterTick` | EOCV-Sim/src/main/java/com/github/serivesmejia/eocvsim/EOCVSim.kt:97 | `k` dispatches after a pass are `k + 1` dispatches from before it. |
| `MainLoop.TickIsPass` | EOCV-Sim/src/main/java/com/github/serivesmejia/eocvsim/EOCVSim.kt:92-144 | A pass's trace has the pass shape, and its dispatch is a `run` of the registry at its start. |
| `MainLoop.LoopUnfold` | EOCV-Sim/src/main/java/com/github/serivesmejia/eocvsim/EOCVSim.kt:92-144 | A pass that does not stop the loop is followed by the loop over the remaining passes. |
| `MainLoop.LoopPasses` | EOCV-Sim/src/main/java/com/github/serivesmejia/eocvsim/EOCVSim.kt:92-144 | Every pass the loop enters has the pass shape for what the simulator reported in it. |
| `MainLoop.LoopDispatches` | EOCV-Sim/src/main/java/com/github/serivesmejia/eocvsim/EOCVSim.kt:92-97 | For any dispatch, pass `i` records the dispatch performed on the registry as the `i` dispatches before it left it, with pass `i`'s posted calls. |
| `MainLoop.SimulatorDispatches` | EOCV-Sim/src/main/java/com/github/serivesmejia/eocvsim/EOCVSim.kt:92-97 | With the simulator's dispatch, pass `i` applies the calls posted since the previous pass to the registry the earlier passes left. It then invokes exactly the listeners registered at that point, in snapshot order, and logs an error for exactly the ones that throw. |
| `MainLoop.LoopDispatchAt` | EOCV-Sim/src/main/java/com/github/serivesmejia/eocvsim/EOCVSim.kt:92-97 | `LoopDispatches` for a single pass `i`. |
| `MainLoop.TickDispatch` | EOCV-Sim/src/main/java/com/github/serivesmejia/eocvsim/EOCVSim.kt:94-97 | A pass's trace opens with the events of its own dispatch, and the pass hands on the registry that dispatch left. |
| `MainLoop.LoopFirstPass` | EOCV-Sim/src/main/java/com/github/serivesmejia/eocvsim/EOCVSim.kt:92-97 | When the loop enters a pass at all, its first trace is that of the first pass offered. |
| `MainLoop.LoopContinues` | EOCV-Sim/src/main/java/com/github/serivesmejia/eocvsim/EOCVSim.kt:92-142 | A loop that entered a second pass saw no interrupt at its head and did not break out of its first pass. |
| `MainLoop.LoopUnfoldLater` | EOCV-Sim/src/main/java/com/github/serivesmejia/eocvsim/EOCVSim.kt:92-142 | A loop that entered a second pass is its first pass followed by the loop over the remaining passes. |
| `MainLoop.PassOfFacts` | EOCV-Sim/src/main/java/com/github/serivesmejia/eocvsim/EOCVSim.kt:92-144 | The per-pass facts (tuner, post, count, sync, error item) hold of any trace with the pass shape. |
| `MainLoop.LoopPassEffects` | EOCV-Sim/src/main/java/com/github/serivesmejia/eocvsim/EOCVSim.kt:92-144 | In every pass of the loop, output is posted iff the pass posts, the frame is counted iff it counts, and the limiter syncs iff there was a frame. |
| `MainLoop.PausedLoop` | EOCV-Sim/src/main/java/com/github/serivesmejia/eocvsim/EOCVSim.kt:114-134 | While the pipeline stays paused, no pass posts output or counts a frame. A pass with a frame still updates the pipeline, shows the telemetry and syncs with the limiter. |
| `MainLoop.FlattenMembers` | EOCV-Sim/src/main/java/com/github/serivesmejia/eocvsim/EOCVSim.kt:92-144 | An effect is in the loop's trace iff it is in one of its passes. |
| `MainLoop.ErrorItemAfterPass` | EOCV-Sim/src/main/java/com/github/serivesmejia/eocvsim/EOCVSim.kt:107-129 | The error state is not sticky. After a pass with a frame and telemetry `t`, `t`'s error item reflects only that pass's outcome. Any other pass leaves it as it was. |
| `MainLoop.FlattenStep` | EOCV-Sim/src/main/java/com/github/serivesmejia/eocvsim/EOCVSim.kt:92-144 | The trace of the first `i + 1` passes is the trace of the first `i` followed by pass `i`. |
| `MainLoop.BeginLoopBrackets` | EOCV-Sim/src/main/java/com/github/serivesmejia/eocvsim/EOCVSim.kt:85-148 | `beginLoop` saves the input sources first, and only then. It logs the interruption warning exactly when the loop stopped, as its last effect. |
| `MainLoop.BracketsOf` | EOCV-Sim/src/main/java/com/github/serivesmejia/eocvsim/EOCVSim.kt:90-146 | The save comes first and the warning, when present, comes last and appears nowhere else. |
| `MainLoop.BeginLoop` | EOCV-Sim/src/main/java/com/github/serivesmejia/eocvsim/EOCVSim.kt:85-148 | No contract; defines `beginLoop`: save the input sources, run the loop, then warn once it has ended. `BeginLoopBrackets` states its promises. |
| `MainLoop.PostedRunnablesRunOnce` | EOCV-Sim/src/main/java/com/github/serivesmejia/eocvsim/EOCVSim.kt:92-97 | With only one-shot runnables without registry calls registered and posted, pass 0 invokes exactly the listeners registered once the calls posted before it are applied to the starting registry. Every later pass invokes exactly the listeners that the calls posted since the previous dispatch leave in an empty registry, in snapshot order, and nothing when none were posted. With an advancing counter that is every runnable posted; as written, only the last (see `AsWrittenPassRunsLastPost`). |
| `MainLoop.PassRunsPosted` | EOCV-Sim/src/main/java/com/github/serivesmejia/eocvsim/EOCVSim.kt:92-97 | `PostedRunnablesRunOnce` for a single pass `i`. |
| `MainLoop.LaterPassRunsPosted` | EOCV-Sim/src/main/java/com/github/serivesmejia/eocvsim/EOCVSim.kt:92-97 | Under the same conditions, the dispatch of a later pass starts from an empty registry and invokes exactly the listeners its posted calls leave registered. |
| `MainLoop.AsWrittenPassRunsLastPost` | EOCV-Sim/src/main/java/com/github/serivesmejia/eocvsim/EOCVSim.kt:92-97 | As written, every `doOnce` posted between two passes overwrites key `idCount + 1`, so a later pass invokes at most one runnable: the last one posted since the previous dispatch. The runnables posted before it in the same interval never run. |
| `MainLoop.QuietAfterFirstPass` | EOCV-Sim/src/main/java/com/github/serivesmejia/eocvsim/EOCVSim.kt:92-97 | With only one-shot runnables without registry calls registered and posted, the registry is empty whenever a pass after the first starts: each dispatch drops what it ran, so a runnable runs at most once. |
| `Lifecycle.StartupLoadsNothing` | EOCV-Sim/src/main/java/com/github/serivesmejia/eocvsim/EOCVSim.kt:63-81 | The startup sequence after the load neither attempts nor performs a native load. |
| `Lifecycle.AttemptsOf` | EOCV-Sim/src/main/java/com/github/serivesmejia/eocvsim/EOCVSim.kt:50-61 | The load block attempts the primary loader, succeeds iff one of the two loaders succeeds, and starts nothing else. |
| `Lifecycle.NativeAttempts` | EOCV-Sim/src/main/java/com/github/serivesmejia/eocvsim/EOCVSim.kt:50-61 | No contract; defines the native-library load attempts for each way the two loaders can go. |
| `Lifecycle.Init` | EOCV-Sim/src/main/java/com/github/serivesmejia/eocvsim/EOCVSim.kt:44-83 | `init` loads the native library only while the flag is clear, trying the primary loader first. If both loaders throw, it neither sets the flag nor starts anything. Otherwise it sets the flag and runs the whole startup sequence, ending with `beginLoop`. |
| `Lifecycle.DestroyReasonOnlyLogged` | EOCV-Sim/src/main/java/com/github/serivesmejia/eocvsim/EOCVSim.kt:150-164 | The destroy reason changes only the logged warning, and `destroy()` means `USER_REQUESTED`. |
| `Lifecycle.Destroy` | EOCV-Sim/src/main/java/com/github/serivesmejia/eocvsim/EOCVSim.kt:150-160 | No contract; defines `destroy(reason)`: warn, save the config, close the visualizer, interrupt the calling thread. |
| `Lifecycle.DestroyDefault` | EOCV-Sim/src/main/java/com/github/serivesmejia/eocvsim/EOCVSim.kt:162-164 | No contract; defines `destroy()` as `destroy(USER_REQUESTED)`. |
| `Lifecycle.RestartSim` | EOCV-Sim/src/main/java/com/github/serivesmejia/eocvsim/EOCVSim.kt:166-174 | No contract; defines `restart`: destroy with reason `RESTART`, then start one new instance. |
| `Lifecycle.RestartOrder` | EOCV-Sim/src/main/java/com/github/serivesmejia/eocvsim/EOCVSim.kt:150-174 | Destroy saves the config before closing the visualizer, and closes it before interrupting the thread. Restart destroys with `RESTART` first and spawns exactly one new instance, last. |
| `Lifecycle.Step` | EOCV-Sim/src/main/java/com/github/serivesmejia/eocvsim/EOCVSim.kt:44-174 | A public call on a set flag keeps the flag set and attempts no load. The flag is set afterwards iff it was set before or the call loaded the library. |
| `Lifecycle.Process` | EOCV-Sim/src/main/java/com/github/serivesmejia/eocvsim/EOCVSim.kt:24 | A run of calls yields one trace per call. |
| `Lifecycle.ProcessUnfold` | EOCV-Sim/src/main/java/com/github/serivesmejia/eocvsim/EOCVSim.kt:24 | The flag after one call is the flag the next call sees. |
| `Lifecycle.FlagMonotone` | EOCV-Sim/src/main/java/com/github/serivesmejia/eocvsim/EOCVSim.kt:24-63 | The flag is never reset. It ends set iff it started set or some `init` loaded the library. |
| `Lifecycle.LoadedAtMostOnce` | EOCV-Sim/src/main/java/com/github/serivesmejia/eocvsim/EOCVSim.kt:49-63 | The native library is loaded at most once per process: after a call loaded it, no later call attempts it, and with the flag already set no call ever does. |
| `Lifecycle.RestartedInstanceSkipsLoading` | EOCV-Sim/src/main/java/com/github/serivesmejia/eocvsim/EOCVSim.kt:166-174 | The instance a restart spawns skips the native load and runs just the startup sequence. |
| `Lifecycle.FailedLoadIsRetried` | EOCV-Sim/src/main/java/com/github/serivesmejia/eocvsim/EOCVSim.kt:50-63 | When both loaders threw, the flag stays clear and the next `init` tries the primary loader again. |
| `TunableConfig.Alloc` | EOCV-Sim/src/main/java/com/github/serivesmejia/eocvsim/gui/component/tuner/TunableFieldPanelConfig.kt:42 | `copy()` makes a new object, distinct from every existing config, holding the same contents. |
| `TunableConfig.Resolve` | EOCV-Sim/src/main/java/com/github/serivesmejia/eocvsim/gui/component/tuner/TunableFieldPanelConfig.kt:174-179 | The config for a field type is its specific entry if there is one, and the global config otherwise. |
| `TunableConfig.ApplyFromConfig` | EOCV-Sim/src/main/java/com/github/serivesmejia/eocvsim/gui/component/tuner/TunableFieldPanelConfig.kt:169-182 | The panel takes the specific config when present and otherwise the global one. As written it holds the stored object itself and the store is unchanged. `appliedSpecificConfig` becomes true exactly in the specific branch and is never cleared. |
| `TunableConfig.NewPanel` | EOCV-Sim/src/main/java/com/github/serivesmejia/eocvsim/gui/component/tuner/TunableFieldPanelConfig.kt:42-124 | A new panel starts with a copy of the global config but ends the constructor with the resolved config. Only a specific entry marks it. |
| `TunableConfig.ApplyGlobally` | EOCV-Sim/src/main/java/com/github/serivesmejia/eocvsim/gui/component/tuner/TunableFieldPanelConfig.kt:143-145 | The global config becomes the panel's config object. The per-type map and every object are unchanged. |
| `TunableConfig.ApplyOfSameType` | EOCV-Sim/src/main/java/com/github/serivesmejia/eocvsim/gui/component/tuner/TunableFieldPanelConfig.kt:147-150 | The entry for the panel's class name becomes the panel's config object. Every other key, the global config and every object are unchanged. |
| `TunableConfig.OnSliderRangeChange` | EOCV-Sim/src/main/java/com/github/serivesmejia/eocvsim/gui/component/tuner/TunableFieldPanelConfig.kt:77-83 | The panel's config takes the entered range only when the fields are valid and the size parsed. Otherwise nothing changes. The colour space and every other object are never touched. |
| `TunableConfig.PanelHide` | EOCV-Sim/src/main/java/com/github/serivesmejia/eocvsim/gui/component/tuner/TunableFieldPanelConfig.kt:161-167 | The sliders receive the configured range iff the fields are valid and height is strictly greater than width, and then receive width as the lower bound and height as the upper. |
| `TunableConfig.EditThenHide` | EOCV-Sim/src/main/java/com/github/serivesmejia/eocvsim/gui/component/tuner/TunableFieldPanelConfig.kt:77-167 | Round trip: after a valid slider edit, closing the panel hands the sliders exactly the entered range when its upper bound is above its lower one, and nothing otherwise. |
| `TunableConfig.SameTypeRoundTrip` | EOCV-Sim/src/main/java/com/github/serivesmejia/eocvsim/gui/component/tuner/TunableFieldPanelConfig.kt:147-179 | After "of same type", any panel of that type resolves to that config (the very object, as written) and is marked as using a specific config. |
| `TunableConfig.GlobalRoundTrip` | EOCV-Sim/src/main/java/com/github/serivesmejia/eocvsim/gui/component/tuner/TunableFieldPanelConfig.kt:143-179 | After "globally", any panel of a type with no specific entry resolves to that config, and its flag is unchanged. |
| `TunableConfig.SpecificOverridesGlobal` | EOCV-Sim/src/main/java/com/github/serivesmejia/eocvsim/gui/component/tuner/TunableFieldPanelConfig.kt:174-176 | A specific entry wins whatever the global config is. |
| `TunableConfig.AppliedFlagSticks` | EOCV-Sim/src/main/java/com/github/serivesmejia/eocvsim/gui/component/tuner/TunableFieldPanelConfig.kt:45-46 | Once `appliedSpecificConfig` is set, no later `applyFromConfig` clears it. |
| `TunableConfig.EditLeaksIntoGlobal` | EOCV-Sim/src/main/java/com/github/serivesmejia/eocvsim/gui/component/tuner/TunableFieldPanelConfig.kt:174-179 | As written, for a type with no specific entry, a valid slider edit in a new panel changes the global config itself. |
| `TunableConfig.EditLeaksIntoGlobalExample` | EOCV-Sim/src/main/java/com/github/serivesmejia/eocvsim/gui/component/tuner/TunableFieldPanelConfig.kt:77-83 | Concretely, a global range of 0 to 255 becomes 10 to 20 after one edit in one panel. |
| `TunableConfig.EditStaysLocal` | EOCV-Sim/src/main/java/com/github/serivesmejia/eocvsim/gui/component/tuner/TunableFieldPanelConfig.kt:42 | With resolution by copy, no slider edit in a new panel changes the global or any specific config. |
| `TunableConfig.Perform` | EOCV-Sim/src/main/java/com/github/serivesmejia/eocvsim/gui/component/tuner/TunableFieldPanelConfig.kt:101-124 | Each user action on an open panel (re-apply, "Globally", "Of same type", a range edit) keeps every reference of the store and the panel pointing at an allocated config. |
| `TunableConfig.Session` | EOCV-Sim/src/main/java/com/github/serivesmejia/eocvsim/gui/component/tuner/TunableFieldPanelConfig.kt:101-124 | The same holds over any sequence of actions, and the panel keeps its field type. |
| `TunableConfig.SessionKeepsFlag` | EOCV-Sim/src/main/java/com/github/serivesmejia/eocvsim/gui/component/tuner/TunableFieldPanelConfig.kt:45-46 | Over any sequence of actions, a set `appliedSpecificConfig` is never cleared. |
| `TunableConfig.CopySessionKeepsStore` | EOCV-Sim/src/main/java/com/github/serivesmejia/eocvsim/gui/component/tuner/TunableFieldPanelConfig.kt:77-83 | With resolution by copy, a sequence of actions without "Globally" or "Of same type" keeps the panel's config private. It leaves the global and per-type references, and every object the store held, unchanged. |
| `TunableConfig.NewCopyPanelKeepsStore` | EOCV-Sim/src/main/java/com/github/serivesmejia/eocvsim/gui/component/tuner/TunableFieldPanelConfig.kt:42 | With resolution by copy, a new panel and anything done in it short of publishing change no stored config. |

## Left out

- `EventHandler.RegistrationsDuringRunSurvive`: the handler carries its own `idCount`, while the source's is a companion field that every `EventHandler` shares (EventHandler.kt:44-46). As written nothing writes it, so that makes no difference. Under the advancing counter, this lemma and `EventHandler.IncrementingOpsGrow` say the counter moves once per registration on this handler. That holds only if no other handler registers in between.
- I/O and the GUI are not modelled. This covers logging, the Swing widgets, repainting and `toggleApplyModesPanel`, and `panelShow`/`updateGuiFromCurrentConfig`, which only copy the config into text fields. Each appears as a named effect or not at all.
- The pipeline, input-source, tuner, telemetry, visualizer, config and FPS-counter managers are not modelled. What they report during a pass is the `Pass` parameter: frame, pause state before and after the update, outcome, telemetry references, interrupt state and the title figures.
- Time, the FPS limiter's sleep and the memory figure are not modelled. They are opaque inputs.
- Threads and locking are not modelled: calls are sequential. What other threads post on `onMainUpdate` between two dispatches is the `posted` field of the next `Pass`, applied just before that pass's `run`. A post that lands while `run` is iterating is not modelled. As written it overwrites key 1, so the running one-shot listener's `removeListener(1)` (`EventHandler.kt` lines 56-57) deletes it and it never runs. `synchronized` is not modelled because every modelled call runs to completion before the next begins.
- `restart` spawning a thread is modelled as the single effect `SpawnInstance`. The new instance's `init` is a later call in the same process.
- `destroy` interrupts the calling thread, which the model records only as an effect.
- Exceptions outside the guarded block of the loop (from the dispatch, the title, the input-source or tuner update, or telemetry display) are not modelled. So are exceptions from config saving.
- On a null or empty frame, the code skips the rest of the pass, including the FPS limiter's sync. A pass without a frame therefore neither throttles nor breaks out on an interrupted sync, and the model follows the code.
- `HashMap` iteration order is taken to be ascending key order. As written the handler only ever uses key 1, so the order cannot matter. With an advancing counter, ascending order is what `HashMap` gives for `Integer` keys below its table capacity. For larger keys the real order can differ, and the model does not follow it.
- A listener's callback is modelled as the registry calls it makes plus whether it then throws. Callbacks that mutate listener objects they hold are not modelled. In particular, a callback that re-registers the listener that is running is not modelled faithfully. `run` reads `persistent` and `id` from the object after the callback returns (`EventHandler.kt` lines 56-57). `doPersistent(this)` therefore keeps a one-shot listener registered in Kotlin, and `doOnce(this)` with an advancing counter makes `run` remove the new key and keep the old one. `Fire` uses the snapshot's values, so it removes the listener under its original id in both cases.
- `OpenCV.loadLocally` and `SysUtil.loadCvNativeLib` are modelled only by whether each succeeds (`NativeLoad`).
- `PickerColorSpace.cvtCode` is not modelled: the OpenCV conversion codes are foreign constants.
- `Size`'s `double`s are modelled as reals; floating-point rounding is not modelled.
- The colour-space combo box is not modelled: in `TunableFieldPanelConfig.kt` nothing writes its selection back into `config`, so no operation of the panel changes `pickerColorSpace`.
- `MainLoop.PassEffectsMembers`: states whether each effect is present in a pass, not how many times. By construction each effect listed occurs at most once per pass, but no contract says so.
- `MainLoop.Loop`: the guarded block catches `Exception` only. A JVM `Error` thrown by the pipeline update or by posting (`OutOfMemoryError`, `StackOverflowError`, an `Error` thrown by user pipeline code) escapes the `catch`, ends the loop without the warning and ends `init`. `Outcome` covers only exceptions, so no modelled pass ends that way.
- `Lifecycle.Init`: an exception or `Error` from the startup sequence (config, GUI, managers) or escaping `beginLoop` is not modelled. It would end `init` after the flag is already set. The primary loader's `catch (ex: Throwable)` does catch everything, and the model follows it.
- `MainLoop.Loop`: the loop's own trace is exposed per pass (`passes`). `BeginLoop` adds the surrounding save and warning.

## Findings

| source | as written | input that shows it | evidently intended | confidence | as-written member | corrected member |
|---|---|---|---|---|---|---|
| EOCV-Sim/src/main/java/com/github/serivesmejia/eocvsim/util/event/EventHandler.kt:62-66 | `doOnce` keys every listener `idCount + 1`, but `idCount` is never incremented, so every id is 1 and each registration overwrites the previous one | `doOnce(a)` then `doOnce(b)` on a fresh handler: both return 1 and `run` invokes only `b` | each registration takes a fresh id (`idCount` advanced), so earlier listeners and listeners registered during `run` survive | high, not executed | `EventHandler.SecondRegistrationDropsFirst` | `EventHandler.BothRegistrationsRun` |
| EOCV-Sim/src/main/java/com/github/serivesmejia/eocvsim/gui/component/tuner/TunableFieldPanelConfig.kt:174-179 | `applyFromConfig` makes the panel hold the global config object itself, although line 42 starts from a `copy()` | a field type with no specific entry, global slider range 0 to 255, slider edit to 10 to 20: the global config becomes 10 to 20 for every field, without "Globally" being pressed | the panel edits a copy and the global or per-type config changes only through "Globally" or "Of same type" | medium, not executed | `TunableConfig.EditLeaksIntoGlobalExample` | `TunableConfig.NewCopyPanelKeepsStore` |

For the first row, `Numbering.AsWritten` is the registry as written and `Numbering.Incrementing` the corrected one. The simulator's main loop runs `MainLoop.Dispatcher(EventHandler.AsWritten)`, the registry as written. The loop's structural lemmas hold for any dispatch. `TickSpec`, `SimulatorDispatches`, `PostedRunnablesRunOnce` and `QuietAfterFirstPass` take the numbering as a parameter and hold for both.

For the second row, `Sharing.ByReference` is `applyFromConfig` as written and `Sharing.ByCopy` the corrected one. Every other `TunableConfig` contract is stated for both.
