/**
 * The main loop of `EOCVSim.beginLoop`: per pass it dispatches the
 * `onMainUpdate` handler, refreshes the window title, updates the input
 * source and the tuner, and, when the input source produced a frame, runs the
 * pipeline inside a try/catch, shows telemetry, counts the frame and waits for
 * the frame-rate limiter.  The loop ends at the first interrupt.
 *
 * The collaborators (pipeline manager, input source manager, visualizer,
 * limiter) are not modelled; what they report in one pass is an input
 * `Pass`, and what the loop does to them is a trace of `Effect`s.
 *
 * The loop takes the dispatch `d` of `onMainUpdate` as a parameter, so its
 * structural properties hold for any dispatch.  The simulator's own is
 * `Dispatcher(EventHandler.AsWritten)`: it applies the registry calls posted
 * since the last pass and then runs the handler.  The lemmas about what the
 * dispatch invokes take the numbering `n` and hold for both numberings.
 */
module MainLoop {
  import opened Wrappers
  import EventHandler
  import Title

  /** The identity of a `Telemetry` object: the loop compares references, not contents. */
  type TelemetryRef = nat

  /** `inputSourceManager.lastMatFromSource`: null, an empty `Mat`, or a frame. */
  datatype Frame = NoFrame | EmptyFrame | Mat(id: nat)

  /** How the guarded block ends: normally, or by an exception from the pipeline update or from posting. */
  datatype Outcome = Completes | UpdateThrows | PostThrows

  /** `fpsLimiter.sync()`: returns after sleeping, or throws `InterruptedException`. */
  datatype SyncResult = Slept | Interrupted

  /** What the rest of the simulator reports during one pass of the loop. */
  datatype Pass = Pass(
    posted: seq<EventHandler.Op>,                 // registry calls other threads made on `onMainUpdate` since the last dispatch
    interruptedAtHead: bool,                      // `Thread.interrupted()` in the loop condition
    telemetry: Option<TelemetryRef>,              // `currentTelemetry`, read first in the pass
    pipelineName: Option<string>,                 // `None` when there is no current pipeline
    pipelineFps: int,
    posterFps: int,
    memoryMb: int,
    pausedBeforeUpdate: bool,                     // `isPaused` for the title and the input source
    frame: Frame,                                 // what the input source update left
    outcome: Outcome,
    pausedAfterUpdate: bool,                      // `isPaused` for posting and frame counting
    telemetryAfterUpdate: Option<TelemetryRef>,   // `currentTelemetry`, re-read for the display
    sync: SyncResult)

  /** What the loop does to its collaborators, in order. */
  datatype Effect =
    | SaveInputSources
    | MainUpdate(events: seq<EventHandler.Event>)
    | SetTitle(pipelineName: Option<string>, figures: Title.TitleFields)
    | UpdateInputSource(paused: bool)
    | UpdateTuner
    | UpdatePipeline(frame: nat)
    | PostMat
    | LogPipelineError
    | SetErrorItem(target: TelemetryRef, caption: string, value: string)
    | RefreshTelemetry(target: TelemetryRef)
    | ShowTelemetry(shown: Option<TelemetryRef>)
    | CountFrame
    | Sync
    | ReassertInterrupt
    | WarnInterrupted

  const ErrorCaption: string := "[/!\\]"
  const ErrorValue: string := "Error while processing pipeline\nCheck console for details."

  /** The caption and value an error item shows. */
  type Display = (string, string)

  const ErrorDisplay: Display := (ErrorCaption, ErrorValue)
  const ClearDisplay: Display := ("", "")

  // ---------------------------------------------------------------------------
  // Classifying passes and effects
  // ---------------------------------------------------------------------------

  /** The input source produced a non-empty frame, so the pass goes past the early `continue`. */
  predicate HasFrame(w: Pass) {
    w.frame.Mat?
  }

  /** The pass posts the pipeline's output to the viewport. */
  predicate Posts(w: Pass) {
    HasFrame(w) && !w.pausedAfterUpdate && w.outcome != UpdateThrows
  }

  /** The pass counts a processed frame. */
  predicate CountsFrame(w: Pass) {
    HasFrame(w) && !w.pausedAfterUpdate
  }

  /** The guarded block throws: the update itself, or the post when one is attempted. */
  predicate Fails(w: Pass) {
    HasFrame(w) && (w.outcome == UpdateThrows || (w.outcome == PostThrows && !w.pausedAfterUpdate))
  }

  /** The limiter's sleep is interrupted, which ends the loop after this pass. */
  predicate StopsInSync(w: Pass) {
    HasFrame(w) && w.sync == Interrupted
  }

  /** The caption and value of telemetry `t`'s error item after `es`, if `es` set it at all. */
  function ErrorItem(es: seq<Effect>, t: TelemetryRef): Option<Display>
    decreases |es|
  {
    if |es| == 0 then None
    else
      var e := es[|es| - 1];
      if e.SetErrorItem? && e.target == t then Some((e.caption, e.value))
      else ErrorItem(es[..|es| - 1], t)
  }

  /** A later assignment of the error item wins over an earlier one. */
  lemma {:induction false} ErrorItemAppend(a: seq<Effect>, b: seq<Effect>, t: TelemetryRef)
    ensures ErrorItem(a + b, t) == if ErrorItem(b, t).Some? then ErrorItem(b, t) else ErrorItem(a, t)
    decreases |b|
  {
    if |b| == 0 {
      assert a + b == a;
    } else {
      assert (a + b)[..|a + b| - 1] == a + b[..|b| - 1];
      ErrorItemAppend(a, b[..|b| - 1], t);
    }
  }

  // ---------------------------------------------------------------------------
  // One pass
  // ---------------------------------------------------------------------------

  /** The title fields of a pass: the title shows the pause state read before the update. */
  function TitleOf(w: Pass): Title.TitleFields {
    Title.TitleFields(w.pipelineFps, w.posterFps, w.pausedBeforeUpdate, w.memoryMb)
  }

  /** What the catch block does to the snapshot telemetry: set the error item and push it. */
  function ReportError(telemetry: Option<TelemetryRef>): seq<Effect> {
    match telemetry
    case None => []
    case Some(t) => [SetErrorItem(t, ErrorCaption, ErrorValue), RefreshTelemetry(t)]
  }

  /** What the end of the try block does to the snapshot telemetry: blank the error item. */
  function ClearError(telemetry: Option<TelemetryRef>): seq<Effect> {
    match telemetry
    case None => []
    case Some(t) => [SetErrorItem(t, "", "")]
  }

  /** The try/catch around the pipeline update and the post. */
  function Guarded(w: Pass, frame: nat): seq<Effect> {
    var posting := !w.pausedAfterUpdate;
    match w.outcome
    case UpdateThrows => [UpdatePipeline(frame), LogPipelineError] + ReportError(w.telemetry)
    case PostThrows =>
      if posting then [UpdatePipeline(frame), PostMat, LogPipelineError] + ReportError(w.telemetry)
      else [UpdatePipeline(frame)] + ClearError(w.telemetry)
    case Completes =>
      [UpdatePipeline(frame)] + (if posting then [PostMat] else []) + ClearError(w.telemetry)
  }

  /**
   * The guarded block starts with the pipeline update, posts exactly when
   * `Posts` says and logs the error exactly when it threw.
   */
  lemma GuardedEffects(w: Pass, frame: nat)
    requires w.frame == Mat(frame)
    ensures var g := Guarded(w, frame);
            g[0] == UpdatePipeline(frame) &&
            (PostMat in g <==> Posts(w)) &&
            (LogPipelineError in g <==> Fails(w)) &&
            UpdateTuner !in g && CountFrame !in g && Sync !in g && ReassertInterrupt !in g && WarnInterrupted !in g &&
            SaveInputSources !in g && ShowTelemetry(w.telemetryAfterUpdate) !in g
  {
    match w.outcome
    case UpdateThrows =>
    case PostThrows =>
    case Completes =>
  }

  /** The guarded block pushes telemetry `t` exactly when it threw and `t` is the snapshot telemetry. */
  lemma GuardedRefreshes(w: Pass, frame: nat, t: TelemetryRef)
    requires w.frame == Mat(frame)
    ensures RefreshTelemetry(t) in Guarded(w, frame) <==> Fails(w) && w.telemetry == Some(t)
  {
  }

  /**
   * The guarded block touches only the snapshot telemetry's error item and
   * leaves it showing the error exactly when the block threw.
   */
  lemma GuardedErrorItem(w: Pass, frame: nat, t: TelemetryRef)
    requires w.frame == Mat(frame)
    ensures ErrorItem(Guarded(w, frame), t) ==
            if w.telemetry == Some(t) then Some(if Fails(w) then ErrorDisplay else ClearDisplay) else None
  {
    var report, clear := ReportError(w.telemetry), ClearError(w.telemetry);
    ReportedItem(w.telemetry, t);
    ClearedItem(w.telemetry, t);
    var prefix: seq<Effect> := match w.outcome
      case UpdateThrows => [UpdatePipeline(frame), LogPipelineError]
      case PostThrows => if w.pausedAfterUpdate then [UpdatePipeline(frame)] else [UpdatePipeline(frame), PostMat, LogPipelineError]
      case Completes => [UpdatePipeline(frame)] + (if w.pausedAfterUpdate then [] else [PostMat]);
    var last := if Fails(w) then report else clear;
    assert Guarded(w, frame) == prefix + last;
    NoErrorItem(prefix, t);
    ErrorItemAppend(prefix, last, t);
  }

  lemma ReportedItem(telemetry: Option<TelemetryRef>, t: TelemetryRef)
    ensures ErrorItem(ReportError(telemetry), t) == if telemetry == Some(t) then Some(ErrorDisplay) else None
  {
    var r := ReportError(telemetry);
    if telemetry.Some? {
      var one := [r[0]];
      assert r[..|r| - 1] == one;
      assert ErrorItem(r, t) == ErrorItem(one, t);
      assert one[..0] == [];
      assert ErrorItem([], t) == None;
    }
  }

  lemma ClearedItem(telemetry: Option<TelemetryRef>, t: TelemetryRef)
    ensures ErrorItem(ClearError(telemetry), t) == if telemetry == Some(t) then Some(ClearDisplay) else None
  {
    var c := ClearError(telemetry);
    if telemetry.Some? {
      assert c[..0] == [];
    }
  }

  /** The limiter and the frame counter, after the pipeline block. */
  function Back(w: Pass): seq<Effect> {
    [ShowTelemetry(w.telemetryAfterUpdate)] + (if w.pausedAfterUpdate then [] else [CountFrame]) + [Sync]
  }

  /** What every pass does first: dispatch, title, input source, tuner. */
  function Front(events: seq<EventHandler.Event>, w: Pass): seq<Effect> {
    [MainUpdate(events), SetTitle(w.pipelineName, TitleOf(w)), UpdateInputSource(w.pausedBeforeUpdate), UpdateTuner]
  }

  /** The effects of one pass, given what dispatching `onMainUpdate` recorded. */
  function PassEffects(events: seq<EventHandler.Event>, w: Pass): seq<Effect> {
    var front := Front(events, w);
    match w.frame
    case NoFrame => front
    case EmptyFrame => front
    case Mat(id) => front + Guarded(w, id) + Back(w) + (if w.sync == Interrupted then [ReassertInterrupt] else [])
  }

  /**
   * Per pass: a tuner update always; a post and a frame count only for an
   * unpaused frame; a limiter sync with a frame and never without one; the
   * interrupt re-asserted exactly when the sync was cut short.
   */
  lemma PassEffectsMembers(events: seq<EventHandler.Event>, w: Pass)
    ensures var es := PassEffects(events, w);
            UpdateTuner in es &&
            (PostMat in es <==> Posts(w)) &&
            (CountFrame in es <==> CountsFrame(w)) &&
            (Sync in es <==> HasFrame(w)) &&
            (ReassertInterrupt in es <==> StopsInSync(w)) &&
            WarnInterrupted !in es && SaveInputSources !in es
  {
    match w.frame
    case NoFrame =>
    case EmptyFrame =>
    case Mat(id) =>
      GuardedEffects(w, id);
      BackEffects(w);
      InFramedPass(UpdateTuner, events, w, id);
      InFramedPass(PostMat, events, w, id);
      InFramedPass(CountFrame, events, w, id);
      InFramedPass(Sync, events, w, id);
      InFramedPass(ReassertInterrupt, events, w, id);
      InFramedPass(WarnInterrupted, events, w, id);
      InFramedPass(SaveInputSources, events, w, id);
  }

  /** Membership in the trace of a pass with a frame, part by part. */
  lemma InFramedPass(x: Effect, events: seq<EventHandler.Event>, w: Pass, id: nat)
    requires w.frame == Mat(id)
    ensures x in PassEffects(events, w) <==>
            x in Front(events, w) || x in Guarded(w, id) || x in Back(w) || (x == ReassertInterrupt && w.sync == Interrupted)
  {
    var tail: seq<Effect> := if w.sync == Interrupted then [ReassertInterrupt] else [];
    assert PassEffects(events, w) == Front(events, w) + Guarded(w, id) + Back(w) + tail;
  }

  /**
   * Per pass: the telemetry re-read after the update is shown exactly when
   * there was a frame, and the pipeline error is logged exactly when the
   * guarded block threw.
   */
  lemma PassDisplayMembers(events: seq<EventHandler.Event>, w: Pass)
    ensures var es := PassEffects(events, w);
            (ShowTelemetry(w.telemetryAfterUpdate) in es <==> HasFrame(w)) &&
            (LogPipelineError in es <==> Fails(w))
  {
    match w.frame
    case NoFrame =>
    case EmptyFrame =>
    case Mat(id) =>
      GuardedEffects(w, id);
      BackEffects(w);
      InFramedPass(ShowTelemetry(w.telemetryAfterUpdate), events, w, id);
      InFramedPass(LogPipelineError, events, w, id);
  }

  /**
   * The tail of a pass with a frame: it always shows the re-read telemetry
   * and syncs, and counts exactly when unpaused.
   */
  lemma BackEffects(w: Pass)
    ensures var b := Back(w);
            Sync in b && ShowTelemetry(w.telemetryAfterUpdate) in b &&
            (CountFrame in b <==> !w.pausedAfterUpdate) &&
            PostMat !in b && UpdateTuner !in b && ReassertInterrupt !in b && LogPipelineError !in b &&
            WarnInterrupted !in b && SaveInputSources !in b
  {
  }

  /**
   * A pass pushes telemetry `t` to the display of its own accord exactly when
   * its guarded block threw and `t` was the snapshot telemetry.
   */
  lemma PassRefreshes(events: seq<EventHandler.Event>, w: Pass, t: TelemetryRef)
    ensures RefreshTelemetry(t) in PassEffects(events, w) <==> Fails(w) && w.telemetry == Some(t)
  {
    match w.frame
    case NoFrame =>
    case EmptyFrame =>
    case Mat(id) =>
      GuardedRefreshes(w, id, t);
      InFramedPass(RefreshTelemetry(t), events, w, id);
  }

  /**
   * Inside a pass every error-item assignment comes before the telemetry
   * display update, so the display shows the item as the pass left it.
   */
  lemma ErrorItemBeforeDisplay(events: seq<EventHandler.Event>, w: Pass)
    ensures var es := PassEffects(events, w);
            forall i, j :: 0 <= i < |es| && 0 <= j < |es| && es[i].SetErrorItem? && es[j].ShowTelemetry? ==> i < j
  {
    match w.frame
    case NoFrame =>
    case EmptyFrame =>
    case Mat(id) =>
      var front := Front(events, w);
      var g, back := Guarded(w, id), Back(w);
      var tail: seq<Effect> := if w.sync == Interrupted then [ReassertInterrupt] else [];
      var es := front + g + back + tail;
      assert PassEffects(events, w) == es;
  }

  /** Effects without an error-item assignment leave every error item as it was. */
  lemma {:induction false} NoErrorItem(es: seq<Effect>, t: TelemetryRef)
    requires forall i :: 0 <= i < |es| ==> !es[i].SetErrorItem?
    ensures ErrorItem(es, t) == None
    decreases |es|
  {
    if |es| > 0 {
      NoErrorItem(es[..|es| - 1], t);
    }
  }

  /**
   * The order inside a pass: dispatch, title, input source, tuner, and then,
   * only with a frame, the pipeline update; a pass without a frame stops
   * there.  A pass with a frame leaves the snapshot telemetry's error item
   * showing the error exactly when the guarded block threw, and no other
   * telemetry's error item is touched.
   */
  lemma PassShape(events: seq<EventHandler.Event>, w: Pass)
    ensures var es := PassEffects(events, w);
            |es| >= 4 && es[0] == MainUpdate(events) && es[1] == SetTitle(w.pipelineName, TitleOf(w)) &&
            es[2] == UpdateInputSource(w.pausedBeforeUpdate) && es[3] == UpdateTuner &&
            (!HasFrame(w) ==> |es| == 4) &&
            (HasFrame(w) ==> |es| > 4 && es[4] == UpdatePipeline(w.frame.id))
    ensures forall t: TelemetryRef :: ErrorItem(PassEffects(events, w), t) ==
              if HasFrame(w) && w.telemetry == Some(t) then Some(if Fails(w) then ErrorDisplay else ClearDisplay) else None
  {
    var front := Front(events, w);
    match w.frame
    case NoFrame =>
      forall t: TelemetryRef ensures ErrorItem(front, t) == None {
        NoErrorItem(front, t);
      }
    case EmptyFrame =>
      forall t: TelemetryRef ensures ErrorItem(front, t) == None {
        NoErrorItem(front, t);
      }
    case Mat(id) =>
      var g := Guarded(w, id);
      var tail := Back(w) + (if w.sync == Interrupted then [ReassertInterrupt] else []);
      assert front + g + Back(w) + (if w.sync == Interrupted then [ReassertInterrupt] else []) == (front + g) + tail;
      forall t: TelemetryRef
        ensures ErrorItem((front + g) + tail, t) ==
                if w.telemetry == Some(t) then Some(if Fails(w) then ErrorDisplay else ClearDisplay) else None
      {
        NoErrorItem(front, t);
        NoErrorItem(tail, t);
        GuardedErrorItem(w, id, t);
        ErrorItemAppend(front, g, t);
        ErrorItemAppend(front + g, tail, t);
      }
  }


  /** The result of one pass: the handler after dispatch, the effects, and whether the loop breaks. */
  datatype TickResult = TickResult(handler: EventHandler.Handler, effects: seq<Effect>, breaks: bool)

  /** The text `updateVisualizerTitle()` puts in the window's title bar. */
  function TitleText(e: Effect): string
    requires e.SetTitle?
  {
    Title.VisualizerTitle(e.pipelineName, e.figures)
  }

  /** `onMainUpdate.run()` in pass `w`: over the registry as the calls posted since the last dispatch left it. */
  function PassDispatch(h: EventHandler.Handler, w: Pass, n: EventHandler.Numbering): (EventHandler.Handler, seq<EventHandler.Event>) {
    EventHandler.Run(EventHandler.ApplyOps(h, w.posted, n), n)
  }

  /**
   * What dispatching `onMainUpdate` does in one pass: the handler it leaves
   * and what it recorded.  The loop is defined for any dispatch, so that the
   * facts about its structure do not depend on the registry.
   */
  type Dispatch = (EventHandler.Handler, Pass) -> (EventHandler.Handler, seq<EventHandler.Event>)

  /** The simulator's own dispatch, with registry numbering `n`. */
  function Dispatcher(n: EventHandler.Numbering): Dispatch {
    (g: EventHandler.Handler, w: Pass) => PassDispatch(g, w, n)
  }

  lemma DispatcherRuns(n: EventHandler.Numbering, g: EventHandler.Handler, w: Pass)
    ensures Dispatcher(n)(g, w) == PassDispatch(g, w, n)
  {
  }

  /** The body of the `while` loop, once: `onMainUpdate` is dispatched first. */
  function Tick(h: EventHandler.Handler, w: Pass, d: Dispatch): TickResult {
    var (h1, events) := d(h, w);
    TickResult(h1, PassEffects(events, w), w.frame.Mat? && w.sync == Interrupted)
  }

  /** The loop breaks after a pass exactly when that pass re-asserted the interrupt. */
  lemma TickBreaks(h: EventHandler.Handler, w: Pass, d: Dispatch)
    ensures Tick(h, w, d).breaks <==> ReassertInterrupt in Tick(h, w, d).effects
  {
    var (h1, events) := d(h, w);
    PassEffectsMembers(events, w);
  }

  /**
   * A pass dispatches every listener registered on `onMainUpdate` when its
   * dispatch starts (including what other threads posted since the last
   * one), in snapshot order, logging each one that throws, and shows a title
   * from which the frame rates, pause state and memory figure read back.
   */
  lemma TickSpec(h: EventHandler.Handler, w: Pass, n: EventHandler.Numbering)
    ensures var r := Tick(h, w, Dispatcher(n));
            var start := EventHandler.ApplyOps(h, w.posted, n);
            r.effects[0].MainUpdate? &&
            EventHandler.Invocations(r.effects[0].events) == EventHandler.Listeners(start) &&
            EventHandler.ErrorIds(r.effects[0].events) == EventHandler.ThrowingIds(EventHandler.Listeners(start)) &&
            r.effects[1].SetTitle? &&
            Title.ParseTitle(Title.Heading(w.pipelineName), TitleText(r.effects[1])) == Some(TitleOf(w)) &&
            r.handler == EventHandler.Run(start, n).0
  {
    DispatcherRuns(n, h, w);
    var (h1, events) := PassDispatch(h, w, n);
    PassShape(events, w);
    Title.TitleRoundTrip(w.pipelineName, TitleOf(w));
  }

  // ---------------------------------------------------------------------------
  // The loop
  // ---------------------------------------------------------------------------

  /** The result of running the loop over some passes: the handler, one trace per pass entered, and whether it ended. */
  datatype LoopResult = LoopResult(handler: EventHandler.Handler, passes: seq<seq<Effect>>, stopped: bool)

  /** The handler `onMainUpdate` holds when pass `i` starts: the dispatches of passes `0 .. i - 1` have run. */
  function HandlerAt(h: EventHandler.Handler, ws: seq<Pass>, d: Dispatch, i: nat): EventHandler.Handler
    requires i <= |ws|
    decreases i
  {
    if i == 0 then h else HandlerAt(d(h, ws[0]).0, ws[1..], d, i - 1)
  }

  /**
   * `while (!Thread.interrupted())` over the passes the simulator offers.
   * The loop enters passes until the condition sees an interrupt or a
   * limiter sync is interrupted (`break`); without either it enters every
   * pass offered, and is still running afterwards.
   */
  function Loop(h: EventHandler.Handler, ws: seq<Pass>, d: Dispatch): (r: LoopResult)
    ensures |r.passes| <= |ws|
    ensures forall i :: 0 <= i < |r.passes| ==> !ws[i].interruptedAtHead
    ensures forall i :: 0 <= i < |r.passes| - 1 ==> !StopsInSync(ws[i])
    ensures r.stopped <==> (|r.passes| < |ws| && ws[|r.passes|].interruptedAtHead)
                           || (0 < |r.passes| && StopsInSync(ws[|r.passes| - 1]))
    ensures !r.stopped ==> |r.passes| == |ws|
    decreases |ws|
  {
    if |ws| == 0 then LoopResult(h, [], false)
    else if ws[0].interruptedAtHead then LoopResult(h, [], true)
    else
      var t := Tick(h, ws[0], d);
      if t.breaks then LoopResult(t.handler, [t.effects], true)
      else
        var rest := Loop(t.handler, ws[1..], d);
        LoopResult(rest.handler, [t.effects] + rest.passes, rest.stopped)
  }

  /** When the loop ends, `onMainUpdate` has been dispatched once per pass entered. */
  lemma {:induction false} LoopHandler(h: EventHandler.Handler, ws: seq<Pass>, d: Dispatch)
    ensures Loop(h, ws, d).handler == HandlerAt(h, ws, d, |Loop(h, ws, d).passes|)
    decreases |ws|
  {
    if |ws| > 0 && !ws[0].interruptedAtHead {
      var t := Tick(h, ws[0], d);
      LoopStep(h, ws, d);
      if !t.breaks {
        LoopHandler(t.handler, ws[1..], d);
      }
      var k := if t.breaks then 0 else |Loop(t.handler, ws[1..], d).passes|;
      HandlerAfterTick(h, ws, d, k);
    }
  }

  /** One pass moves the loop's handler and pass count on to the loop over the rest. */
  lemma LoopStep(h: EventHandler.Handler, ws: seq<Pass>, d: Dispatch)
    requires |ws| > 0 && !ws[0].interruptedAtHead
    ensures var t, r := Tick(h, ws[0], d), Loop(h, ws, d);
            if t.breaks then r.handler == t.handler && |r.passes| == 1
            else r.handler == Loop(t.handler, ws[1..], d).handler && |r.passes| == |Loop(t.handler, ws[1..], d).passes| + 1
  {
  }

  /** The handler `k` passes after the first pass is the handler at pass `k + 1`. */
  lemma HandlerAfterTick(h: EventHandler.Handler, ws: seq<Pass>, d: Dispatch, k: nat)
    requires 0 < |ws| && k < |ws|
    ensures HandlerAt(h, ws, d, k + 1) == HandlerAt(Tick(h, ws[0], d).handler, ws[1..], d, k)
  {
    var (h1, events) := d(h, ws[0]);
    assert Tick(h, ws[0], d).handler == h1;
  }

  /** `es` is the trace of one pass over `w`, whatever its dispatch recorded. */
  predicate PassOf(es: seq<Effect>, w: Pass) {
    |es| > 0 && es[0].MainUpdate? && es == PassEffects(es[0].events, w)
  }

  lemma TickIsPass(h: EventHandler.Handler, w: Pass, d: Dispatch)
    ensures PassOf(Tick(h, w, d).effects, w)
    ensures Tick(h, w, d).effects[0].events == d(h, w).1
  {
    var (h1, events) := d(h, w);
    PassShape(events, w);
  }

  /** The loop's first pass, when it enters one and does not break there, is followed by the loop over the rest. */
  lemma LoopUnfold(h: EventHandler.Handler, ws: seq<Pass>, d: Dispatch)
    requires |ws| > 0 && !ws[0].interruptedAtHead && !Tick(h, ws[0], d).breaks
    ensures Loop(h, ws, d).passes == [Tick(h, ws[0], d).effects] + Loop(Tick(h, ws[0], d).handler, ws[1..], d).passes
  {
  }

  /** Pass `i` of the loop is one pass over `ws[i]`. */
  lemma {:induction false} LoopPasses(h: EventHandler.Handler, ws: seq<Pass>, d: Dispatch)
    ensures var r := Loop(h, ws, d);
            forall i :: 0 <= i < |r.passes| ==> PassOf(r.passes[i], ws[i])
    decreases |ws|
  {
    if |ws| > 0 && !ws[0].interruptedAtHead {
      TickIsPass(h, ws[0], d);
      var t := Tick(h, ws[0], d);
      if !t.breaks {
        var r := Loop(h, ws, d);
        var rest := Loop(t.handler, ws[1..], d);
        LoopUnfold(h, ws, d);
        LoopPasses(t.handler, ws[1..], d);
        forall i | 0 < i < |r.passes|
          ensures PassOf(r.passes[i], ws[i])
        {
          assert r.passes[i] == rest.passes[i - 1];
          assert ws[i] == ws[1..][i - 1];
        }
      }
    }
  }

  /**
   * The dispatch of pass `i` is performed on the handler the `i` dispatches
   * before it left, with the calls posted since applied.
   */
  lemma LoopDispatches(h: EventHandler.Handler, ws: seq<Pass>, d: Dispatch)
    ensures var r := Loop(h, ws, d);
            forall i :: 0 <= i < |r.passes| ==>
              |r.passes[i]| > 0 && r.passes[i][0].MainUpdate? &&
              r.passes[i][0].events == d(HandlerAt(h, ws, d, i), ws[i]).1
  {
    var r := Loop(h, ws, d);
    forall i | 0 <= i < |r.passes|
      ensures |r.passes[i]| > 0 && r.passes[i][0].MainUpdate? &&
              r.passes[i][0].events == d(HandlerAt(h, ws, d, i), ws[i]).1
    {
      LoopDispatchAt(h, ws, d, i);
    }
  }

  /**
   * With the simulator's dispatch, pass `i` invokes exactly the listeners
   * registered once the calls posted since the previous pass are applied to
   * the registry the earlier passes left, in snapshot order, and logs an
   * error for exactly the ones that throw.
   */
  lemma SimulatorDispatches(h: EventHandler.Handler, ws: seq<Pass>, n: EventHandler.Numbering, i: nat)
    requires i < |Loop(h, ws, Dispatcher(n)).passes|
    ensures var p := Loop(h, ws, Dispatcher(n)).passes[i];
            var start := EventHandler.ApplyOps(HandlerAt(h, ws, Dispatcher(n), i), ws[i].posted, n);
            |p| > 0 && p[0].MainUpdate? &&
            EventHandler.Invocations(p[0].events) == EventHandler.Listeners(start) &&
            EventHandler.ErrorIds(p[0].events) == EventHandler.ThrowingIds(EventHandler.Listeners(start))
  {
    LoopDispatchAt(h, ws, Dispatcher(n), i);
    DispatcherRuns(n, HandlerAt(h, ws, Dispatcher(n), i), ws[i]);
  }

  lemma {:induction false} LoopDispatchAt(h: EventHandler.Handler, ws: seq<Pass>, d: Dispatch, i: nat)
    requires i < |Loop(h, ws, d).passes|
    ensures var p := Loop(h, ws, d).passes[i];
            |p| > 0 && p[0].MainUpdate? && p[0].events == d(HandlerAt(h, ws, d, i), ws[i]).1
    decreases i, 1
  {
    if i == 0 {
      LoopDispatchFirst(h, ws, d);
    } else {
      LoopDispatchLater(h, ws, d, i - 1);
    }
  }

  /** `LoopDispatchAt` for the first pass. */
  lemma LoopDispatchFirst(h: EventHandler.Handler, ws: seq<Pass>, d: Dispatch)
    requires 0 < |Loop(h, ws, d).passes|
    ensures var p := Loop(h, ws, d).passes[0];
            |p| > 0 && p[0].MainUpdate? && p[0].events == d(HandlerAt(h, ws, d, 0), ws[0]).1
  {
    var e := Tick(h, ws[0], d).effects;
    LoopFirstPass(h, ws, d);
    TickDispatch(h, ws[0], d);
    assert Loop(h, ws, d).passes[0] == e;
    assert HandlerAt(h, ws, d, 0) == h;
  }

  /** `LoopDispatchAt` for pass `k + 1`: it is pass `k` of the loop begun after the first pass. */
  lemma {:induction false} LoopDispatchLater(h: EventHandler.Handler, ws: seq<Pass>, d: Dispatch, k: nat)
    requires k + 1 < |Loop(h, ws, d).passes|
    ensures var p := Loop(h, ws, d).passes[k + 1];
            |p| > 0 && p[0].MainUpdate? && p[0].events == d(HandlerAt(h, ws, d, k + 1), ws[k + 1]).1
    decreases k + 1, 0
  {
    var h1 := Tick(h, ws[0], d).handler;
    LoopLaterPass(h, ws, d, k);
    LoopDispatchAt(h1, ws[1..], d, k);
    HandlerAfterTick(h, ws, d, k);
    assert ws[1..][k] == ws[k + 1];
  }

  /** A pass's trace opens with the dispatch it performed, and the pass leaves the registry that dispatch left. */
  lemma TickDispatch(h: EventHandler.Handler, w: Pass, d: Dispatch)
    ensures |Tick(h, w, d).effects| > 0 && Tick(h, w, d).effects[0] == MainUpdate(d(h, w).1)
    ensures Tick(h, w, d).handler == d(h, w).0
  {
  }

  /** The loop's first trace is the first pass's. */
  lemma LoopFirstPass(h: EventHandler.Handler, ws: seq<Pass>, d: Dispatch)
    requires 0 < |Loop(h, ws, d).passes|
    ensures Loop(h, ws, d).passes[0] == Tick(h, ws[0], d).effects
  {
    assert !ws[0].interruptedAtHead;
  }

  /** Every later trace of the loop is a trace of the loop begun after the first pass. */
  lemma LoopLaterPass(h: EventHandler.Handler, ws: seq<Pass>, d: Dispatch, k: nat)
    requires k + 1 < |Loop(h, ws, d).passes|
    ensures k < |Loop(Tick(h, ws[0], d).handler, ws[1..], d).passes|
    ensures Loop(h, ws, d).passes[k + 1] == Loop(Tick(h, ws[0], d).handler, ws[1..], d).passes[k]
  {
    LoopUnfoldLater(h, ws, d);
    var first: seq<seq<Effect>> := [Tick(h, ws[0], d).effects];
    var rest := Loop(Tick(h, ws[0], d).handler, ws[1..], d).passes;
    assert |first + rest| == 1 + |rest|;
    assert (first + rest)[k + 1] == rest[k];
  }

  /** `LoopUnfold` for a loop known to have entered a second pass. */
  lemma LoopUnfoldLater(h: EventHandler.Handler, ws: seq<Pass>, d: Dispatch)
    requires 1 < |Loop(h, ws, d).passes|
    ensures 0 < |ws|
    ensures Loop(h, ws, d).passes == [Tick(h, ws[0], d).effects] + Loop(Tick(h, ws[0], d).handler, ws[1..], d).passes
  {
    LoopContinues(h, ws, d);
    LoopUnfold(h, ws, d);
  }

  /** A loop that made a second pass neither saw the interrupt at its head nor broke out of its first pass. */
  lemma LoopContinues(h: EventHandler.Handler, ws: seq<Pass>, d: Dispatch)
    requires 1 < |Loop(h, ws, d).passes|
    ensures 0 < |ws|
    ensures !ws[0].interruptedAtHead
    ensures !Tick(h, ws[0], d).breaks
  {
    assert !ws[0].interruptedAtHead;
    LoopStep(h, ws, d);
  }

  /** The facts of `PassEffectsMembers` and `PassShape` for any trace of one pass. */
  lemma PassOfFacts(es: seq<Effect>, w: Pass)
    requires PassOf(es, w)
    ensures UpdateTuner in es &&
            (PostMat in es <==> Posts(w)) &&
            (CountFrame in es <==> CountsFrame(w)) &&
            (Sync in es <==> HasFrame(w)) &&
            (ShowTelemetry(w.telemetryAfterUpdate) in es <==> HasFrame(w)) &&
            (LogPipelineError in es <==> Fails(w)) &&
            (ReassertInterrupt in es <==> StopsInSync(w)) &&
            WarnInterrupted !in es && SaveInputSources !in es &&
            (!HasFrame(w) ==> |es| == 4) &&
            (HasFrame(w) ==> |es| > 4 && es[4] == UpdatePipeline(w.frame.id))
    ensures forall t: TelemetryRef :: ErrorItem(es, t) ==
              if HasFrame(w) && w.telemetry == Some(t) then Some(if Fails(w) then ErrorDisplay else ClearDisplay) else None
  {
    PassEffectsMembers(es[0].events, w);
    PassDisplayMembers(es[0].events, w);
    PassShape(es[0].events, w);
  }

  /**
   * Every pass the loop enters updates the tuner; it posts and counts a frame
   * only for an unpaused frame, shows telemetry and syncs with the limiter
   * exactly when it had a frame, logs a pipeline error exactly when its
   * guarded block threw, and a pass without a frame does nothing after the
   * tuner update.
   */
  lemma LoopPassEffects(h: EventHandler.Handler, ws: seq<Pass>, d: Dispatch)
    ensures var r := Loop(h, ws, d);
            forall i :: 0 <= i < |r.passes| ==>
              UpdateTuner in r.passes[i] &&
              (PostMat in r.passes[i] <==> Posts(ws[i])) &&
              (CountFrame in r.passes[i] <==> CountsFrame(ws[i])) &&
              (Sync in r.passes[i] <==> HasFrame(ws[i])) &&
              (ShowTelemetry(ws[i].telemetryAfterUpdate) in r.passes[i] <==> HasFrame(ws[i])) &&
              (LogPipelineError in r.passes[i] <==> Fails(ws[i])) &&
              (!HasFrame(ws[i]) ==> |r.passes[i]| == 4)
  {
    var r := Loop(h, ws, d);
    LoopPasses(h, ws, d);
    forall i | 0 <= i < |r.passes|
      ensures UpdateTuner in r.passes[i] &&
              (PostMat in r.passes[i] <==> Posts(ws[i])) &&
              (CountFrame in r.passes[i] <==> CountsFrame(ws[i])) &&
              (Sync in r.passes[i] <==> HasFrame(ws[i])) &&
              (ShowTelemetry(ws[i].telemetryAfterUpdate) in r.passes[i] <==> HasFrame(ws[i])) &&
              (LogPipelineError in r.passes[i] <==> Fails(ws[i])) &&
              (!HasFrame(ws[i]) ==> |r.passes[i]| == 4)
    {
      PassOfFacts(r.passes[i], ws[i]);
    }
  }

  /**
   * While paused the loop neither posts to the viewport nor counts frames,
   * but it keeps updating the pipeline (which runs pending update listeners),
   * keeps showing telemetry and keeps syncing with the limiter for every frame.
   */
  lemma PausedLoop(h: EventHandler.Handler, ws: seq<Pass>, d: Dispatch)
    requires forall i :: 0 <= i < |ws| ==> ws[i].pausedAfterUpdate
    ensures var r := Loop(h, ws, d);
            forall i :: 0 <= i < |r.passes| ==>
              PostMat !in r.passes[i] && CountFrame !in r.passes[i] &&
              (HasFrame(ws[i]) ==> Sync in r.passes[i] && ShowTelemetry(ws[i].telemetryAfterUpdate) in r.passes[i] &&
                                   |r.passes[i]| > 4 && r.passes[i][4] == UpdatePipeline(ws[i].frame.id))
  {
    var r := Loop(h, ws, d);
    LoopPasses(h, ws, d);
    forall i | 0 <= i < |r.passes|
      ensures PostMat !in r.passes[i] && CountFrame !in r.passes[i] &&
              (HasFrame(ws[i]) ==> Sync in r.passes[i] && ShowTelemetry(ws[i].telemetryAfterUpdate) in r.passes[i] &&
                                   |r.passes[i]| > 4 && r.passes[i][4] == UpdatePipeline(ws[i].frame.id))
    {
      PassOfFacts(r.passes[i], ws[i]);
    }
  }

  /** The passes' traces one after another. */
  function Flatten(ps: seq<seq<Effect>>): seq<Effect>
    decreases |ps|
  {
    if |ps| == 0 then [] else Flatten(ps[..|ps| - 1]) + ps[|ps| - 1]
  }

  /** An effect occurs in the flattened traces exactly when it occurs in one of them. */
  lemma {:induction false} FlattenMembers(ps: seq<seq<Effect>>, e: Effect)
    ensures e in Flatten(ps) <==> exists i :: 0 <= i < |ps| && e in ps[i]
    decreases |ps|
  {
    if |ps| > 0 {
      var init := ps[..|ps| - 1];
      FlattenMembers(init, e);
      assert forall i :: 0 <= i < |init| ==> init[i] == ps[i];
    }
  }

  /**
   * Whatever earlier passes showed, a pass with a frame leaves its snapshot
   * telemetry's error item showing the error exactly when that pass threw:
   * errors are not sticky.  A pass without a frame, or on another telemetry,
   * leaves the item as it was.
   */
  lemma ErrorItemAfterPass(h: EventHandler.Handler, ws: seq<Pass>, d: Dispatch, i: nat, t: TelemetryRef)
    requires i < |Loop(h, ws, d).passes|
    ensures var ps := Loop(h, ws, d).passes;
            ErrorItem(Flatten(ps[..i + 1]), t) ==
            if HasFrame(ws[i]) && ws[i].telemetry == Some(t) then Some(if Fails(ws[i]) then ErrorDisplay else ClearDisplay)
            else ErrorItem(Flatten(ps[..i]), t)
  {
    var ps := Loop(h, ws, d).passes;
    LoopPasses(h, ws, d);
    PassOfFacts(ps[i], ws[i]);
    FlattenStep(ps, i);
    ErrorItemAppend(Flatten(ps[..i]), ps[i], t);
  }

  lemma FlattenStep(ps: seq<seq<Effect>>, i: nat)
    requires i < |ps|
    ensures Flatten(ps[..i + 1]) == Flatten(ps[..i]) + ps[i]
  {
    assert ps[..i + 1][..i] == ps[..i];
  }

  /** `beginLoop`: save the input sources, run the loop, and warn once it has ended. */
  function BeginLoop(h: EventHandler.Handler, ws: seq<Pass>, d: Dispatch): seq<Effect> {
    var r := Loop(h, ws, d);
    [SaveInputSources] + Flatten(r.passes) + (if r.stopped then [WarnInterrupted] else [])
  }

  /**
   * The input sources are saved once, before any pass; the warning appears
   * exactly when the loop has ended, and then as the last effect.
   */
  lemma BeginLoopBrackets(h: EventHandler.Handler, ws: seq<Pass>, d: Dispatch)
    ensures var es := BeginLoop(h, ws, d);
            es[0] == SaveInputSources && SaveInputSources !in es[1..] &&
            (WarnInterrupted in es <==> Loop(h, ws, d).stopped) &&
            (Loop(h, ws, d).stopped ==> es[|es| - 1] == WarnInterrupted)
  {
    var r := Loop(h, ws, d);
    LoopPasses(h, ws, d);
    forall i | 0 <= i < |r.passes|
      ensures WarnInterrupted !in r.passes[i] && SaveInputSources !in r.passes[i]
    {
      PassOfFacts(r.passes[i], ws[i]);
    }
    FlattenMembers(r.passes, WarnInterrupted);
    FlattenMembers(r.passes, SaveInputSources);
    BracketsOf(Flatten(r.passes), r.stopped);
  }

  lemma BracketsOf(body: seq<Effect>, stopped: bool)
    requires WarnInterrupted !in body && SaveInputSources !in body
    ensures var es := [SaveInputSources] + body + (if stopped then [WarnInterrupted] else []);
            es[0] == SaveInputSources && SaveInputSources !in es[1..] &&
            (WarnInterrupted in es <==> stopped) &&
            (stopped ==> es[|es| - 1] == WarnInterrupted)
  {
    var es := [SaveInputSources] + body + (if stopped then [WarnInterrupted] else []);
    assert es[1..] == body + (if stopped then [WarnInterrupted] else []);
  }

  // ---------------------------------------------------------------------------
  // Runnables posted with `doOnce`
  // ---------------------------------------------------------------------------

  /** Every registry call posted before any pass only posts a quiet one-shot runnable. */
  ghost predicate PostsRunnables(ws: seq<Pass>) {
    forall j :: 0 <= j < |ws| ==> EventHandler.QuietPosts(ws[j].posted)
  }

  /**
   * With only quiet one-shot runnables registered and posted, the registry is
   * empty at the start of every pass after the first: each dispatch drops
   * every listener it ran, so a runnable runs at most once.
   */
  lemma {:induction false} QuietAfterFirstPass(h: EventHandler.Handler, ws: seq<Pass>, n: EventHandler.Numbering, i: nat)
    requires EventHandler.QuietRegistry(h) && PostsRunnables(ws)
    requires 0 < i <= |ws|
    ensures HandlerAt(h, ws, Dispatcher(n), i).listeners == map[]
    decreases i
  {
    var start := EventHandler.ApplyOps(h, ws[0].posted, n);
    EventHandler.PostingKeepsQuiet(h, ws[0].posted, n);
    EventHandler.OneShotRunEmpties(start, n);
    DispatcherRuns(n, h, ws[0]);
    var h1 := PassDispatch(h, ws[0], n).0;
    assert h1.listeners == map[];
    if i > 1 {
      assert PostsRunnables(ws[1..]) by {
        forall j | 0 <= j < |ws[1..]|
          ensures EventHandler.QuietPosts(ws[1..][j].posted)
        {
          assert ws[1..][j] == ws[j + 1];
        }
      }
      QuietAfterFirstPass(h1, ws[1..], n, i - 1);
    }
  }

  /**
   * A runnable posted with `doOnce` runs at most once, in the next pass: pass
   * `i` invokes exactly the listeners that the calls posted since the
   * previous dispatch leave registered, on top of what was registered at the
   * start (first pass) or of an empty registry (later passes), in snapshot
   * order.  With an advancing counter that is every runnable posted; as
   * written it is only the last one (`AsWrittenPassRunsLastPost`).  A later
   * pass with nothing newly posted invokes nobody.
   */
  lemma PostedRunnablesRunOnce(h: EventHandler.Handler, ws: seq<Pass>, n: EventHandler.Numbering)
    requires EventHandler.QuietRegistry(h) && PostsRunnables(ws)
    ensures var d := Dispatcher(n);
            var ps := Loop(h, ws, d).passes;
            (forall i :: 0 <= i < |ps| ==> |ps[i]| > 0 && ps[i][0].MainUpdate?) &&
            (|ps| > 0 ==> EventHandler.Invocations(ps[0][0].events) ==
                          EventHandler.Listeners(EventHandler.ApplyOps(h, ws[0].posted, n))) &&
            (forall i :: 0 < i < |ps| ==>
               EventHandler.Invocations(ps[i][0].events) ==
               EventHandler.Listeners(EventHandler.ApplyOps(EventHandler.Handler(map[], HandlerAt(h, ws, d, i).idCount), ws[i].posted, n))) &&
            (forall i :: 0 < i < |ps| && ws[i].posted == [] ==> EventHandler.Invocations(ps[i][0].events) == [])
  {
    var d := Dispatcher(n);
    var ps: seq<seq<Effect>> := Loop(h, ws, d).passes;
    forall i | 0 <= i < |ps|
      ensures |ps[i]| > 0 && ps[i][0].MainUpdate?
      ensures i == 0 ==> EventHandler.Invocations(ps[i][0].events) ==
                         EventHandler.Listeners(EventHandler.ApplyOps(h, ws[0].posted, n))
      ensures 0 < i ==> EventHandler.Invocations(ps[i][0].events) ==
                        EventHandler.Listeners(EventHandler.ApplyOps(EventHandler.Handler(map[], HandlerAt(h, ws, d, i).idCount), ws[i].posted, n))
      ensures 0 < i && ws[i].posted == [] ==> EventHandler.Invocations(ps[i][0].events) == []
    {
      PassRunsPosted(h, ws, n, i);
    }
  }

  /** `PostedRunnablesRunOnce` for pass `i` alone. */
  lemma PassRunsPosted(h: EventHandler.Handler, ws: seq<Pass>, n: EventHandler.Numbering, i: nat)
    requires EventHandler.QuietRegistry(h) && PostsRunnables(ws)
    requires i < |Loop(h, ws, Dispatcher(n)).passes|
    ensures var d := Dispatcher(n);
            var p := Loop(h, ws, d).passes[i];
            |p| > 0 && p[0].MainUpdate? &&
            (i == 0 ==> EventHandler.Invocations(p[0].events) ==
                        EventHandler.Listeners(EventHandler.ApplyOps(h, ws[0].posted, n))) &&
            (0 < i ==> EventHandler.Invocations(p[0].events) ==
                       EventHandler.Listeners(EventHandler.ApplyOps(EventHandler.Handler(map[], HandlerAt(h, ws, d, i).idCount), ws[i].posted, n))) &&
            (0 < i && ws[i].posted == [] ==> EventHandler.Invocations(p[0].events) == [])
  {
    var d := Dispatcher(n);
    LoopDispatchAt(h, ws, d, i);
    if i == 0 {
      assert HandlerAt(h, ws, d, 0) == h;
      DispatcherRuns(n, h, ws[0]);
    } else {
      LaterPassRunsPosted(h, ws, n, i);
    }
  }

  /** The dispatch of a later pass starts from an empty registry and runs exactly what the calls posted since the previous one leave registered. */
  lemma LaterPassRunsPosted(h: EventHandler.Handler, ws: seq<Pass>, n: EventHandler.Numbering, i: nat)
    requires EventHandler.QuietRegistry(h) && PostsRunnables(ws)
    requires 0 < i < |ws|
    ensures var hi := HandlerAt(h, ws, Dispatcher(n), i);
            var events := Dispatcher(n)(hi, ws[i]).1;
            EventHandler.Invocations(events) ==
            EventHandler.Listeners(EventHandler.ApplyOps(EventHandler.Handler(map[], hi.idCount), ws[i].posted, n)) &&
            (ws[i].posted == [] ==> EventHandler.Invocations(events) == [])
  {
    QuietAfterFirstPass(h, ws, n, i);
    var hi := HandlerAt(h, ws, Dispatcher(n), i);
    DispatcherRuns(n, hi, ws[i]);
    assert hi == EventHandler.Handler(map[], hi.idCount);
    assert EventHandler.Listeners(hi) == [];
  }

  /**
   * As written, every `doOnce` posted between two passes overwrites the
   * single slot, so a later pass invokes at most one runnable: the last one
   * posted since the previous dispatch, under id `idCount + 1`.  The runnables
   * posted before it in the same interval never run.
   */
  lemma AsWrittenPassRunsLastPost(h: EventHandler.Handler, ws: seq<Pass>, i: nat)
    requires EventHandler.QuietRegistry(h) && PostsRunnables(ws)
    requires 0 < i < |Loop(h, ws, Dispatcher(EventHandler.AsWritten)).passes|
    ensures var p := Loop(h, ws, Dispatcher(EventHandler.AsWritten)).passes[i];
            var c := HandlerAt(h, ws, Dispatcher(EventHandler.AsWritten), i).idCount;
            var posted := ws[i].posted;
            |p| > 0 && p[0].MainUpdate? &&
            EventHandler.Invocations(p[0].events) ==
              if |posted| == 0 then [] else [posted[|posted| - 1].listener.(id := c + 1)]
  {
    LoopDispatchAt(h, ws, Dispatcher(EventHandler.AsWritten), i);
    AsWrittenLaterDispatch(h, ws, i);
  }

  /** `AsWrittenPassRunsLastPost` for the dispatch of pass `i` itself. */
  lemma AsWrittenLaterDispatch(h: EventHandler.Handler, ws: seq<Pass>, i: nat)
    requires EventHandler.QuietRegistry(h) && PostsRunnables(ws)
    requires 0 < i < |ws|
    ensures var hi := HandlerAt(h, ws, Dispatcher(EventHandler.AsWritten), i);
            var posted := ws[i].posted;
            EventHandler.Invocations(Dispatcher(EventHandler.AsWritten)(hi, ws[i]).1) ==
              EventHandler.LastPosted(posted, hi.idCount)
  {
    QuietAfterFirstPass(h, ws, EventHandler.AsWritten, i);
    assert EventHandler.QuietPosts(ws[i].posted);
    AsWrittenDispatchFromEmpty(HandlerAt(h, ws, Dispatcher(EventHandler.AsWritten), i), ws[i]);
  }

  /** As written, a dispatch from an empty registry invokes only the last runnable posted before it. */
  lemma AsWrittenDispatchFromEmpty(g: EventHandler.Handler, w: Pass)
    requires g.listeners == map[] && EventHandler.QuietPosts(w.posted)
    ensures EventHandler.Invocations(Dispatcher(EventHandler.AsWritten)(g, w).1) == EventHandler.LastPosted(w.posted, g.idCount)
  {
    DispatcherRuns(EventHandler.AsWritten, g, w);
    EventHandler.AsWrittenRunAfterPosts(g, w.posted);
  }
}
