/**
 * The lifecycle of an `EOCVSim` instance: `init` (native library loading,
 * guarded by the process-wide `alreadyInitializedOnce` flag, then the
 * start-up order of the managers), `destroy` and `restart`.
 *
 * The managers themselves are not modelled; what `init`, `destroy` and
 * `restart` ask of them is a trace of `Effect`s.  Whether each attempt to
 * load the native library succeeds is an input.
 */
module Lifecycle {

  /** `EOCVSim.DestroyReason`. */
  datatype DestroyReason = UserRequested | ThemeChanging | Restart

  /** How the native library loading goes: the primary loader works, only the fallback works, or both throw. */
  datatype NativeLoad = PrimaryLoads | FallbackLoads | BothFail

  datatype Effect =
    | LoadNative(fallback: bool, succeeded: bool)
    | LogNativeFailure
    | CreatePipelineManager
    | InitConfig
    | InitVisualizer
    | InitInputSources
    | InitPipelines
    | InitTuner
    | WaitForGui
    | UpdateSourcesList
    | SelectSource(index: int)
    | UpdatePipelinesList
    | SelectPipeline(index: int)
    | BeginLoop
    | WarnDestroying(reason: DestroyReason)
    | SaveConfig
    | CloseVisualizer
    | InterruptCurrentThread
    | SpawnInstance

  /**
   * What `init` does once the native library is available, in order: the
   * pipeline manager is created, the config is loaded before the visualizer
   * is built with its theme, the managers are initialised, the GUI is
   * awaited, the first source and the first pipeline are selected, and the
   * loop begins.
   */
  const Startup: seq<Effect> := [
    CreatePipelineManager, InitConfig, InitVisualizer, InitInputSources, InitPipelines, InitTuner,
    WaitForGui, UpdateSourcesList, SelectSource(0), UpdatePipelinesList, SelectPipeline(0), BeginLoop]

  /** The attempts at loading the native library, for each way it can go. */
  function NativeAttempts(load: NativeLoad): seq<Effect> {
    match load
    case PrimaryLoads => [LoadNative(false, true)]
    case FallbackLoads => [LoadNative(false, false), LogNativeFailure, LoadNative(true, true)]
    case BothFail => [LoadNative(false, false), LogNativeFailure, LoadNative(true, false)]
  }

  /** The library is loaded by `es`. */
  predicate Loaded(es: seq<Effect>) {
    LoadNative(false, true) in es || LoadNative(true, true) in es
  }

  /** `es` tries to load the library at all. */
  predicate Attempts(es: seq<Effect>) {
    LoadNative(false, false) in es || LoadNative(false, true) in es ||
    LoadNative(true, false) in es || LoadNative(true, true) in es
  }

  lemma StartupLoadsNothing()
    ensures !Attempts(Startup) && !Loaded(Startup)
  {
    assert forall e :: e in Startup ==> !e.LoadNative?;
  }

  lemma AttemptsOf(load: NativeLoad)
    ensures Attempts(NativeAttempts(load))
    ensures Loaded(NativeAttempts(load)) <==> load != BothFail
    ensures BeginLoop !in NativeAttempts(load) && CreatePipelineManager !in NativeAttempts(load)
  {
  }

  /**
   * The outcome of `init`: the flag afterwards, the trace, and whether `init`
   * got past the native load (it then runs the startup sequence into `beginLoop`,
   * which does not return while the loop runs).
   */
  datatype InitResult = InitResult(initializedOnce: bool, effects: seq<Effect>, pastLoad: bool)

  /**
   * `init`, given the process-wide flag.  The library is loaded only while the
   * flag is clear; if both loaders throw, the exception leaves `init` before
   * the flag is set and before anything else starts.
   */
  function Init(initializedOnce: bool, load: NativeLoad): (r: InitResult)
    ensures r.pastLoad <==> initializedOnce || load != BothFail
    ensures r.initializedOnce <==> r.pastLoad
    ensures initializedOnce ==> !Attempts(r.effects)
    ensures !initializedOnce ==> |r.effects| > 0 && r.effects[0] == LoadNative(false, load == PrimaryLoads)
    ensures Loaded(r.effects) <==> !initializedOnce && load != BothFail
    ensures r.pastLoad ==> |r.effects| >= |Startup| && r.effects[|r.effects| - |Startup|..] == Startup
    ensures !r.pastLoad ==> BeginLoop !in r.effects && CreatePipelineManager !in r.effects
  {
    var attempts := if initializedOnce then [] else NativeAttempts(load);
    StartupLoadsNothing();
    AttemptsOf(load);
    if !initializedOnce && load == BothFail then InitResult(false, attempts, false)
    else
      var es := attempts + Startup;
      assert es[|es| - |Startup|..] == Startup;
      InitResult(true, es, true)
  }

  /** `destroy(reason)`: save the config, close the visualizer, interrupt the calling thread. */
  function Destroy(reason: DestroyReason): seq<Effect> {
    [WarnDestroying(reason), SaveConfig, CloseVisualizer, InterruptCurrentThread]
  }

  /** `destroy()`. */
  function DestroyDefault(): seq<Effect> {
    Destroy(UserRequested)
  }

  /** `restart`: destroy with reason `RESTART`, then start a new instance on a new thread. */
  function RestartSim(): seq<Effect> {
    Destroy(Restart) + [SpawnInstance]
  }

  /** `a` happens before `b` in `es`. */
  predicate Precedes(es: seq<Effect>, a: Effect, b: Effect) {
    exists i, j :: 0 <= i < j < |es| && es[i] == a && es[j] == b
  }

  /**
   * The reason only shows in the log line: every reason saves, closes and
   * interrupts alike, and `destroy()` is `destroy(USER_REQUESTED)`.
   */
  lemma DestroyReasonOnlyLogged(a: DestroyReason, b: DestroyReason)
    ensures Destroy(a)[1..] == Destroy(b)[1..]
    ensures Destroy(a)[0] == WarnDestroying(a)
    ensures DestroyDefault()[0] == WarnDestroying(UserRequested)
  {
  }

  /**
   * `destroy` saves the config before it closes the visualizer, and both
   * before it interrupts the thread; `restart` spawns exactly one new
   * instance, as its last step, after all three.
   */
  lemma RestartOrder(reason: DestroyReason)
    ensures Precedes(Destroy(reason), SaveConfig, CloseVisualizer)
    ensures Precedes(Destroy(reason), CloseVisualizer, InterruptCurrentThread)
    ensures SpawnInstance !in Destroy(reason)
    ensures var es := RestartSim();
            es[..|es| - 1] == Destroy(Restart) && es[|es| - 1] == SpawnInstance
    ensures multiset(RestartSim())[SpawnInstance] == 1
  {
    var d := Destroy(reason);
    assert d[1] == SaveConfig && d[2] == CloseVisualizer && d[3] == InterruptCurrentThread;
  }

  // ---------------------------------------------------------------------------
  // A process: calls on successive instances, sharing the companion flag
  // ---------------------------------------------------------------------------

  /** What happens to the simulator in a process: an instance's `init`, or a call on the running one. */
  datatype Call = CallInit(load: NativeLoad) | CallDestroy(reason: DestroyReason) | CallDestroyDefault | CallRestart

  /**
   * One call's trace and the flag it leaves: no call clears the flag, a call
   * sets it exactly by loading the library (or, for `init`, finding it set),
   * and once it is set no call attempts a load.
   */
  function Step(initializedOnce: bool, c: Call): (r: (bool, seq<Effect>))
    ensures initializedOnce ==> r.0 && !Attempts(r.1)
    ensures r.0 <==> initializedOnce || Loaded(r.1)
  {
    assert forall e :: e in DestroyDefault() ==> !e.LoadNative?;
    assert forall e :: e in RestartSim() ==> !e.LoadNative?;
    match c
    case CallInit(load) => var r := Init(initializedOnce, load); (r.initializedOnce, r.effects)
    case CallDestroy(reason) => (initializedOnce, Destroy(reason))
    case CallDestroyDefault => (initializedOnce, DestroyDefault())
    case CallRestart => (initializedOnce, RestartSim())
  }

  /** The result of a sequence of calls: the flag afterwards and one trace per call. */
  datatype ProcessResult = ProcessResult(initializedOnce: bool, traces: seq<seq<Effect>>)

  /** The calls of a process, in order, from the given flag. */
  function Process(initializedOnce: bool, calls: seq<Call>): (r: ProcessResult)
    ensures |r.traces| == |calls|
    decreases |calls|
  {
    if |calls| == 0 then ProcessResult(initializedOnce, [])
    else
      var (flag, es) := Step(initializedOnce, calls[0]);
      var rest := Process(flag, calls[1..]);
      ProcessResult(rest.initializedOnce, [es] + rest.traces)
  }

  lemma ProcessUnfold(initializedOnce: bool, calls: seq<Call>)
    requires |calls| > 0
    ensures var r := Process(initializedOnce, calls);
            var rest := Process(Step(initializedOnce, calls[0]).0, calls[1..]);
            r.initializedOnce == rest.initializedOnce && r.traces[0] == Step(initializedOnce, calls[0]).1 &&
            forall i :: 0 < i < |r.traces| ==> r.traces[i] == rest.traces[i - 1]
  {
  }

  /**
   * The flag is never reset: once set it stays set whatever the calls, and
   * it is set at the end exactly when it was set at the start or some
   * `init` loaded the library.
   */
  lemma {:induction false} FlagMonotone(initializedOnce: bool, calls: seq<Call>)
    ensures var r := Process(initializedOnce, calls);
            initializedOnce ==> r.initializedOnce
    ensures var r := Process(initializedOnce, calls);
            r.initializedOnce <==> initializedOnce || exists i :: 0 <= i < |r.traces| && Loaded(r.traces[i])
    decreases |calls|
  {
    if |calls| > 0 {
      var (flag, es) := Step(initializedOnce, calls[0]);
      FlagMonotone(flag, calls[1..]);
      ProcessUnfold(initializedOnce, calls);
      var r := Process(initializedOnce, calls);
      var rest := Process(flag, calls[1..]);
      if exists i :: 0 <= i < |rest.traces| && Loaded(rest.traces[i]) {
        var i :| 0 <= i < |rest.traces| && Loaded(rest.traces[i]);
        assert Loaded(r.traces[i + 1]);
      }
      if exists i :: 0 <= i < |r.traces| && Loaded(r.traces[i]) {
        var i :| 0 <= i < |r.traces| && Loaded(r.traces[i]);
        if i > 0 {
          assert Loaded(rest.traces[i - 1]);
        }
      }
    }
  }

  /**
   * The native library is loaded at most once per process: after a call that
   * loaded it, no later call even attempts to load it.
   */
  lemma {:induction false} LoadedAtMostOnce(initializedOnce: bool, calls: seq<Call>)
    ensures var r := Process(initializedOnce, calls);
            forall i, j :: 0 <= i < j < |r.traces| && Loaded(r.traces[i]) ==> !Attempts(r.traces[j])
    ensures var r := Process(initializedOnce, calls);
            initializedOnce ==> forall j :: 0 <= j < |r.traces| ==> !Attempts(r.traces[j])
    decreases |calls|
  {
    if |calls| > 0 {
      var (flag, es) := Step(initializedOnce, calls[0]);
      LoadedAtMostOnce(flag, calls[1..]);
      ProcessUnfold(initializedOnce, calls);
      var r := Process(initializedOnce, calls);
      var rest := Process(flag, calls[1..]);
      forall i, j | 0 <= i < j < |r.traces| && Loaded(r.traces[i])
        ensures !Attempts(r.traces[j])
      {
        if i > 0 {
          assert Loaded(rest.traces[i - 1]);
        }
      }
    }
  }

  /**
   * A restart's new instance skips the native library when the old one had
   * loaded it, and then starts up completely.
   */
  lemma RestartedInstanceSkipsLoading(load: NativeLoad, reload: NativeLoad)
    requires load != BothFail
    ensures var r := Process(false, [CallInit(load), CallRestart, CallInit(reload)]);
            Loaded(r.traces[0]) && !Attempts(r.traces[2]) && r.traces[2] == Startup
  {
    var calls := [CallInit(load), CallRestart, CallInit(reload)];
    ProcessUnfold(false, calls);
    assert calls[1..] == [CallRestart, CallInit(reload)];
    ProcessUnfold(true, calls[1..]);
    assert calls[1..][1..] == [CallInit(reload)];
    ProcessUnfold(true, calls[1..][1..]);
    assert Init(true, reload).effects == [] + Startup;
  }

  /** When both loaders throw, the flag stays clear, so the next `init` tries again. */
  lemma FailedLoadIsRetried(load: NativeLoad)
    ensures var r := Process(false, [CallInit(BothFail), CallInit(load)]);
            !Loaded(r.traces[0]) && |r.traces[1]| > 0 && r.traces[1][0] == LoadNative(false, load == PrimaryLoads)
  {
    var calls := [CallInit(BothFail), CallInit(load)];
    ProcessUnfold(false, calls);
    assert calls[1..] == [CallInit(load)];
    assert Step(false, calls[0]).0 == false;
    ProcessUnfold(false, calls[1..]);
  }
}
