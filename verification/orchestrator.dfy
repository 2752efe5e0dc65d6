/**
 The playout orchestrator: one iteration of the stream manager loop as a pure
 function from the store and what the environment answers (process liveness,
 which files exist, the duration probe, the content resolver) to the next
 store, the encoder actions issued in order, and the pause before the next
 iteration. Priorities, highest first: off air, live camera, queue / idle.
 */
module Orchestrator {
  import opened Optional
  import Config
  import opened StateStore

  /**
   The environment's answers for one iteration. `currentExited` is the poll of
   the handle held when the iteration begins; `startedExited` the poll of a
   handle launched earlier in the same iteration (the live branch polls the
   encoder it has just started); `files` the paths that exist; `probe` the
   duration the probe reports for a queued file; `resolved` the resolver's
   `(url, title)` answer for the current hashtag.
   */
  datatype Env = Env(
    now: int,
    currentExited: bool,
    startedExited: bool,
    files: set<string>,
    probe: Option<int>,
    resolved: Option<(string, string)>)

  /** The externally visible effects of an iteration. */
  datatype Action =
    | Stop
    | Start(kind: SourceKind, source: Option<string>)
    | Resolve(hashtag: string)
    | SetProgramName(title: string)

  /** The outcome of one iteration. */
  datatype Step = Step(store: Store, actions: seq<Action>, sleep: nat)

  /** The last path component, as `os.path.basename` computes it for '/'-separated paths. */
  function Basename(p: string): (b: string)
    ensures '/' !in b
    ensures |b| <= |p| && b == p[|p| - |b|..]
    ensures '/' !in p ==> b == p
    ensures |b| < |p| ==> p[|p| - |b| - 1] == '/'
  {
    if '/' in p then
      var b := Basename(p[1..]);
      assert |b| == |p| - 1 ==> b == p[1..] && p[0] == '/';
      b
    else p
  }

  /**
   Where a queued name lives: the upload folder joined with the name. A name
   without a separator is what the basename of its path gives back, so it is
   recorded as the playing file.
   */
  function UploadPath(name: string): (p: string)
    ensures p == Config.UPLOAD_FOLDER + "/" + name
    ensures '/' !in name ==> Basename(p) == name
  {
    if '/' in name then Config.UPLOAD_FOLDER + "/" + name
    else
      BasenameOfJoin(Config.UPLOAD_FOLDER, name);
      Config.UPLOAD_FOLDER + "/" + name
  }

  /** The basename of a joined path is the name that was joined, when it holds no separator. */
  lemma {:induction false} BasenameOfJoin(dir: string, name: string)
    requires '/' !in name
    ensures Basename(dir + "/" + name) == name
  {
    if dir == [] {
      assert dir + "/" + name == "/" + name;
      assert ("/" + name)[1..] == name;
    } else {
      assert (dir + "/" + name)[1..] == dir[1..] + "/" + name;
      BasenameOfJoin(dir[1..], name);
    }
  }

  /**
   Stops the held encoder: with no handle nothing happens and no action is
   issued; otherwise the handle and the playback descriptor are both cleared.
   */
  function StopEncoder(s: Store): (r: (Store, seq<Action>))
    ensures s.process.None? ==> r.0 == s && r.1 == []
    ensures s.process.Some? ==> r.0.process.None? && r.0.playback.NoPlayback? && r.1 == [Stop]
    ensures r.0 == s.(process := r.0.process, playback := r.0.playback)
  {
    if s.process.Some? then (ClearCurrentPlayback(s.(process := None)), [Stop]) else (s, [])
  }

  /**
   Launches an encoder for `source` of kind `kind` at `env.now`: the slot holds
   the new handle, the playback names the source's basename for a queued file
   and the kind's name otherwise, and a duration is known only for a queued file
   that exists and that the probe could measure.
   */
  function StartEncoder(s: Store, kind: SourceKind, source: Option<string>, env: Env): (r: Store)
    ensures r.process == Some(Encoder(kind, source))
    ensures r.playback.Is(kind) && r.playback.startedAt == env.now
    ensures kind != Queue ==> r.playback.file == KindName(kind) && r.playback.duration == None
    ensures kind == Queue && source.Some? ==> r.playback.file == Basename(source.value)
    ensures r.playback.duration.Some? ==> kind == Queue && source.Some? && source.value in env.files
    ensures kind == Queue && source.Some? && source.value in env.files ==> r.playback.duration == env.probe
    ensures r.totalVideosPlayed == s.totalVideosPlayed + (if kind == Queue then 1 else 0)
    ensures r == s.(process := r.process, playback := r.playback, totalVideosPlayed := r.totalVideosPlayed)
  {
    var duration := if kind == Queue && source.Some? && source.value in env.files then env.probe else None;
    var file := if kind == Queue && source.Some? then Basename(source.value) else KindName(kind);
    SetCurrentPlayback(s.(process := Some(Encoder(kind, source))), kind, file, duration, env.now)
  }

  /** True when the resolver produced a usable answer (a non-empty url). */
  predicate Resolved(env: Env) {
    env.resolved.Some? && env.resolved.value.0 != ""
  }

  /**
   Chooses what to play once the slot is free, after the actions `pre` already
   issued this iteration. A non-empty queue gives up its front name, which
   starts as a queued file if it exists and is otherwise dropped; an empty
   queue in auto mode asks the resolver, plays the answer and takes its title
   as the program name, or falls back to idle and waits longer; otherwise idle
   plays.
   */
  function Select(s: Store, pre: seq<Action>, env: Env): (r: Step)
    ensures r.store.broadcasting == s.broadcasting && r.store.liveCameraMode == s.liveCameraMode
    ensures r.store.autoMode == s.autoMode && r.store.hashtag == s.hashtag
    ensures r.store.streamStartTime == s.streamStartTime
    ensures r.store.totalSegmentsCreated == s.totalSegmentsCreated
    ensures s.queue != [] ==> r.store.queue == s.queue[1..] && r.store.programName == s.programName
    ensures s.queue != [] && UploadPath(s.queue[0]) in env.files ==>
      r.actions == pre + [Start(Queue, Some(UploadPath(s.queue[0])))]
      && r.store.process == Some(Encoder(Queue, Some(UploadPath(s.queue[0]))))
      && r.store.playback.Is(Queue)
    ensures s.queue != [] && UploadPath(s.queue[0]) !in env.files ==>
      r.actions == pre && r.store == s.(queue := s.queue[1..])
    ensures s.queue == [] ==> r.store.queue == []
    ensures s.queue == [] && s.autoMode && Resolved(env) ==>
      r.actions == pre + [Resolve(s.hashtag), SetProgramName(env.resolved.value.1), Start(Url, Some(env.resolved.value.0))]
      && r.store.programName == env.resolved.value.1
      && r.store.process == Some(Encoder(Url, Some(env.resolved.value.0)))
    ensures s.queue == [] && s.autoMode && !Resolved(env) ==>
      r.actions == pre + [Resolve(s.hashtag), Start(Idle, Some(Config.IDLE_SOURCE_PATH))]
      && r.store.programName == s.programName
      && r.store.process == Some(Encoder(Idle, Some(Config.IDLE_SOURCE_PATH)))
      && r.sleep == Config.RESOLVER_BACKOFF + Config.TICK_SLEEP
    ensures s.queue == [] && !s.autoMode ==>
      r.actions == pre + [Start(Idle, Some(Config.IDLE_SOURCE_PATH))]
      && r.store.programName == s.programName
      && r.store.process == Some(Encoder(Idle, Some(Config.IDLE_SOURCE_PATH)))
    ensures !(s.queue == [] && s.autoMode && !Resolved(env)) ==> r.sleep == Config.TICK_SLEEP
  {
    if s.queue != [] then
      var (popped, _) := PopFromQueue(s);
      var path := UploadPath(s.queue[0]);
      if path in env.files then
        Step(StartEncoder(popped, Queue, Some(path), env), pre + [Start(Queue, Some(path))], Config.TICK_SLEEP)
      else
        Step(popped, pre, Config.TICK_SLEEP)
    else if s.autoMode then
      if Resolved(env) then
        var (url, title) := env.resolved.value;
        Step(StartEncoder(s.(programName := title), Url, Some(url), env),
             pre + [Resolve(s.hashtag), SetProgramName(title), Start(Url, Some(url))], Config.TICK_SLEEP)
      else
        Step(StartEncoder(s, Idle, Some(Config.IDLE_SOURCE_PATH), env),
             pre + [Resolve(s.hashtag), Start(Idle, Some(Config.IDLE_SOURCE_PATH))],
             Config.RESOLVER_BACKOFF + Config.TICK_SLEEP)
    else
      Step(StartEncoder(s, Idle, Some(Config.IDLE_SOURCE_PATH), env),
           pre + [Start(Idle, Some(Config.IDLE_SOURCE_PATH))], Config.TICK_SLEEP)
  }

  /**
   The live-camera branch. A playback that is not live is stopped and a live
   encoder started; then the held encoder, if it has exited, is started again.
   The queue is neither read nor popped.
   */
  function LiveTick(s: Store, env: Env): (r: Step)
    ensures r.store.queue == s.queue && r.store.programName == s.programName
    ensures r.store.broadcasting == s.broadcasting && r.store.liveCameraMode == s.liveCameraMode
    ensures r.store.autoMode == s.autoMode && r.store.hashtag == s.hashtag
    ensures r.store.streamStartTime == s.streamStartTime
    ensures r.store.totalSegmentsCreated == s.totalSegmentsCreated
    ensures r.store.totalVideosPlayed == s.totalVideosPlayed
    ensures r.sleep == Config.TICK_SLEEP
    ensures !s.playback.Is(Live) ==>
      r.actions == StopEncoder(s).1 + [Start(Live, None)] + (if env.startedExited then [Start(Live, None)] else [])
      && r.store.process == Some(Encoder(Live, None)) && r.store.playback.Is(Live)
    ensures s.playback.Is(Live) && s.process.Some? && env.currentExited ==>
      r.actions == [Start(Live, None)]
      && r.store.process == Some(Encoder(Live, None)) && r.store.playback.Is(Live)
    ensures s.playback.Is(Live) && (s.process.None? || !env.currentExited) ==>
      r.store == s && r.actions == []
  {
    var (s1, a1, exited) :=
      if !s.playback.Is(Live) then
        var (stopped, stop) := StopEncoder(s);
        (StartEncoder(stopped, Live, None, env), stop + [Start(Live, None)], env.startedExited)
      else
        (s, [], env.currentExited);
    if s1.process.Some? && exited then
      Step(StartEncoder(s1, Live, None, env), a1 + [Start(Live, None)], Config.TICK_SLEEP)
    else
      Step(s1, a1, Config.TICK_SLEEP)
  }

  /**
   The queue / idle branch. An exited encoder has its handle and playback
   cleared first. A running encoder is left alone unless it is idle and the
   queue holds something, in which case idle is stopped and selection follows
   in the same iteration; a free slot goes straight to selection.
   */
  function QueueTick(s: Store, env: Env): (r: Step)
    ensures s.process.Some? && !env.currentExited && !(s.playback.Is(Idle) && s.queue != []) ==>
      r == Step(s, [], Config.TICK_SLEEP)
    ensures s.process.Some? && !env.currentExited && s.playback.Is(Idle) && s.queue != [] ==>
      r == Select(s.(process := None, playback := NoPlayback), [Stop], env)
    ensures s.process.Some? && env.currentExited ==>
      r == Select(s.(process := None, playback := NoPlayback), [], env)
    ensures s.process.None? ==> r == Select(s, [], env)
  {
    var s1 := if s.process.Some? && env.currentExited then ClearCurrentPlayback(s.(process := None)) else s;
    if s1.process.Some? then
      if s1.playback.Is(Idle) && s1.queue != [] then
        var (stopped, stop) := StopEncoder(s1);
        Select(stopped, stop, env)
      else
        Step(s1, [], Config.TICK_SLEEP)
    else
      Select(s1, [], env)
  }

  /**
   One iteration of the stream manager loop, by priority: off air the encoder
   is only stopped; in live mode the live source is kept playing and the queue
   and resolver are ignored; otherwise the queue, auto mode and idle fill the
   slot, and a running encoder is disturbed only to preempt idle.
   */
  function Tick(s: Store, env: Env): (r: Step)
    ensures !s.broadcasting ==>
      !HasStart(r.actions) && r.actions == (if s.process.Some? then [Stop] else [])
      && r.store.process.None? && (s.process.Some? ==> r.store.playback.NoPlayback?)
      && r.store == s.(process := None, playback := r.store.playback)
    ensures s.broadcasting && s.liveCameraMode ==>
      (forall h :: Resolve(h) !in r.actions)
      && r.store.queue == s.queue && r.store.programName == s.programName
      && r.store.playback.Is(Live)
    ensures s.broadcasting && !s.liveCameraMode ==>
      (forall i :: 0 <= i < |r.actions| && r.actions[i].Start? ==> r.actions[i].kind != Live)
      && (r.store.queue == s.queue || (s.queue != [] && r.store.queue == s.queue[1..]))
    ensures s.broadcasting && !s.liveCameraMode && s.process.Some? && !env.currentExited && !(s.playback.Is(Idle) && s.queue != []) ==>
      r == Step(s, [], Config.TICK_SLEEP)
    ensures s.broadcasting && !s.liveCameraMode && (s.process.None? || env.currentExited) ==>
      r.store.process.Some? || (s.queue != [] && UploadPath(s.queue[0]) !in env.files)
    ensures r.sleep == Config.TICK_SLEEP || (s.broadcasting && s.autoMode && r.sleep == Config.RESOLVER_BACKOFF + Config.TICK_SLEEP)
  {
    if !s.broadcasting then
      var (stopped, stop) := StopEncoder(s);
      Step(stopped, stop, Config.TICK_SLEEP)
    else if s.liveCameraMode then
      LiveTick(s, env)
    else
      QueueTick(s, env)
  }

  // --- properties of an iteration ---

  /** A handle is held exactly when a playback is recorded, and both name the same kind. */
  predicate Consistent(s: Store) {
    (s.process.Some? <==> s.playback.Playing?)
    && (s.process.Some? ==> s.process.value.kind == s.playback.kind)
  }

  /** True when some action of `acts` launches an encoder. */
  predicate HasStart(acts: seq<Action>) {
    exists i :: 0 <= i < |acts| && acts[i].Start?
  }

  /** The encoder the last launch of `acts` asked for, if any. */
  function LastStarted(acts: seq<Action>): (e: Option<Encoder>)
    ensures e.Some? <==> HasStart(acts)
  {
    if acts == [] then None
    else if acts[|acts| - 1].Start? then Some(Encoder(acts[|acts| - 1].kind, acts[|acts| - 1].source))
    else
      var e := LastStarted(acts[..|acts| - 1]);
      assert forall i :: 0 <= i < |acts| - 1 ==> acts[..|acts| - 1][i] == acts[i];
      e
  }

  /** Every iteration keeps the handle and the playback descriptor in step. */
  lemma TickKeepsConsistent(s: Store, env: Env)
    requires Consistent(s)
    ensures Consistent(Tick(s, env).store)
  {
  }

  /**
   The single encoder slot: after an iteration that launched anything the slot
   holds the last launch; after one that launched nothing it holds the handle
   it began with or nothing.
   */
  lemma TickSlotHoldsLastStart(s: Store, env: Env)
    ensures HasStart(Tick(s, env).actions) ==> Tick(s, env).store.process == LastStarted(Tick(s, env).actions)
    ensures LastStarted(Tick(s, env).actions).None? ==>
      Tick(s, env).store.process == s.process || Tick(s, env).store.process.None?
  {
  }

  /**
   An encoder that is still running is never replaced without being stopped
   first: if the iteration launches anything, its first action is a stop.
   */
  lemma TickNeverOverwritesRunning(s: Store, env: Env)
    requires s.process.Some? && !env.currentExited
    ensures HasStart(Tick(s, env).actions) ==> Tick(s, env).actions[0] == Stop
  {
  }

  /**
   The resolver is asked only on air, outside live mode, in auto mode, with an
   empty queue and a free slot, and always for the current hashtag.
   */
  lemma ResolverOnlyInAutoMode(s: Store, env: Env, h: string)
    requires Resolve(h) in Tick(s, env).actions
    ensures s.broadcasting && !s.liveCameraMode && s.autoMode && s.queue == []
    ensures s.process.None? || env.currentExited
    ensures h == s.hashtag
  {
  }

  /**
   What an iteration never touches: the flags, the hashtag, the stream start
   time and the segment counter. The queue loses at most its front name, and
   the program name changes only through an announced title.
   */
  lemma TickFrame(s: Store, env: Env)
    ensures Tick(s, env).store.broadcasting == s.broadcasting
    ensures Tick(s, env).store.liveCameraMode == s.liveCameraMode
    ensures Tick(s, env).store.autoMode == s.autoMode && Tick(s, env).store.hashtag == s.hashtag
    ensures Tick(s, env).store.streamStartTime == s.streamStartTime
    ensures Tick(s, env).store.totalSegmentsCreated == s.totalSegmentsCreated
    ensures Tick(s, env).store.queue == s.queue || (s.queue != [] && Tick(s, env).store.queue == s.queue[1..])
    ensures Tick(s, env).store.programName == s.programName
         || SetProgramName(Tick(s, env).store.programName) in Tick(s, env).actions
  {
  }

  /**
   Off air, an iteration at most stops the encoder: it launches nothing, and
   the queue, the flags and the program name stay as they were.
   */
  lemma OffAirOnlyStops(s: Store, env: Env)
    requires !s.broadcasting
    ensures !HasStart(Tick(s, env).actions)
    ensures Tick(s, env).actions == (if s.process.Some? then [Stop] else [])
    ensures Tick(s, env).store.process.None? && Tick(s, env).store.playback.NoPlayback? <== s.process.Some?
    ensures Tick(s, env).store == s.(process := Tick(s, env).store.process, playback := Tick(s, env).store.playback)
  {
  }

  /** The live branch never consults the queue or the resolver. */
  lemma LiveIgnoresQueue(s: Store, env: Env, q: seq<string>)
    requires s.broadcasting && s.liveCameraMode
    ensures Tick(s.(queue := q), env).actions == Tick(s, env).actions
    ensures Tick(s.(queue := q), env).store == Tick(s, env).store.(queue := q)
    ensures forall h :: Resolve(h) !in Tick(s, env).actions
  {
  }

  // --- runs of several iterations ---

  /** The stores and actions of successive iterations, one environment each. */
  function Run(s: Store, envs: seq<Env>): (r: (Store, seq<Action>))
    ensures envs == [] ==> r == (s, [])
    decreases |envs|
  {
    if envs == [] then (s, [])
    else
      var step := Tick(s, envs[0]);
      var rest := Run(step.store, envs[1..]);
      (rest.0, step.actions + rest.1)
  }

  /** Off air, any number of iterations launches nothing and the store stays off air. */
  lemma {:induction false} OffAirRunNeverStarts(s: Store, envs: seq<Env>)
    requires !s.broadcasting
    ensures !HasStart(Run(s, envs).1)
    ensures !Run(s, envs).0.broadcasting
    ensures Run(s, envs).0.queue == s.queue && Run(s, envs).0.programName == s.programName
    decreases |envs|
  {
    if envs != [] {
      var step := Tick(s, envs[0]);
      OffAirOnlyStops(s, envs[0]);
      OffAirRunNeverStarts(step.store, envs[1..]);
      var rest := Run(step.store, envs[1..]);
      assert Run(s, envs).1 == step.actions + rest.1;
      forall i | 0 <= i < |step.actions + rest.1|
        ensures !(step.actions + rest.1)[i].Start?
      {
        if i >= |step.actions| {
          assert (step.actions + rest.1)[i] == rest.1[i - |step.actions|];
        }
      }
    }
  }

  // --- the hand-off sequences the loop promises ---

  /**
   A queued file that exists starts within one iteration of a free slot,
   recorded under its own name; the queue gives it up.
   */
  lemma QueuedFileStartsOnFreeSlot(s: Store, env: Env)
    requires s.broadcasting && !s.liveCameraMode && (s.process.None? || env.currentExited)
    requires s.queue != [] && UploadPath(s.queue[0]) in env.files && '/' !in s.queue[0]
    ensures Tick(s, env).actions == [Start(Queue, Some(UploadPath(s.queue[0])))]
    ensures Tick(s, env).store.queue == s.queue[1..]
    ensures Tick(s, env).store.playback.Is(Queue) && Tick(s, env).store.playback.file == s.queue[0]
    ensures Tick(s, env).store.totalVideosPlayed == s.totalVideosPlayed + 1
  {
  }

  /** A queued name whose file is missing is dropped: nothing starts and it is not queued again. */
  lemma MissingFileIsDropped(s: Store, env: Env)
    requires s.broadcasting && !s.liveCameraMode && s.process.None?
    requires s.queue != [] && UploadPath(s.queue[0]) !in env.files
    ensures Tick(s, env).actions == []
    ensures Tick(s, env).store == s.(queue := s.queue[1..])
  {
  }

  /** When the encoder exits with the queue empty and auto mode off, idle starts in the same iteration. */
  lemma ExitWithEmptyQueuePlaysIdle(s: Store, env: Env)
    requires s.broadcasting && !s.liveCameraMode && !s.autoMode
    requires s.process.Some? && env.currentExited && s.queue == []
    ensures Tick(s, env).actions == [Start(Idle, Some(Config.IDLE_SOURCE_PATH))]
    ensures Tick(s, env).store.playback.Is(Idle) && Tick(s, env).store.playback.file == "IDLE"
  {
  }

  /**
   A running idle encoder is stopped as soon as the queue holds a name, and
   the front name is popped and started in that same iteration.
   */
  lemma IdlePreemptedInSameTick(s: Store, env: Env)
    requires s.broadcasting && !s.liveCameraMode
    requires s.process.Some? && !env.currentExited && s.playback.Is(Idle)
    requires s.queue != [] && UploadPath(s.queue[0]) in env.files
    ensures Tick(s, env).actions == [Stop, Start(Queue, Some(UploadPath(s.queue[0])))]
    ensures Tick(s, env).store.queue == s.queue[1..]
  {
  }

  /** A running encoder that is not idle, or idle with nothing queued, is left exactly as it is. */
  lemma RunningEncoderUndisturbed(s: Store, env: Env)
    requires s.broadcasting && !s.liveCameraMode
    requires s.process.Some? && !env.currentExited
    requires !s.playback.Is(Idle) || s.queue == []
    ensures Tick(s, env) == Step(s, [], Config.TICK_SLEEP)
  {
  }

  /**
   Switching to the live camera while anything else plays stops it and starts
   the live source within one iteration, whatever the queue holds.
   */
  lemma LiveTakesOverWithinOneTick(s: Store, env: Env)
    requires s.broadcasting && s.liveCameraMode && s.process.Some? && !s.playback.Is(Live)
    requires !env.startedExited
    ensures Tick(s, env).actions == [Stop, Start(Live, None)]
    ensures Tick(s, env).store.process == Some(Encoder(Live, None))
    ensures Tick(s, env).store.queue == s.queue
  {
  }

  /** A live encoder that has died is started again, and nothing is stopped. */
  lemma DeadLiveEncoderRestarts(s: Store, env: Env)
    requires s.broadcasting && s.liveCameraMode && s.process.Some? && s.playback.Is(Live)
    requires env.currentExited
    ensures Tick(s, env).actions == [Start(Live, None)]
    ensures Tick(s, env).store.playback.Is(Live) && Tick(s, env).store.playback.startedAt == env.now
  {
  }

  /**
   In auto mode with an empty queue and a free slot, a resolved video becomes
   the program and starts; a failed resolution keeps the program name, plays
   idle and waits the extra back-off.
   */
  lemma AutoModeOutcome(s: Store, env: Env)
    requires s.broadcasting && !s.liveCameraMode && s.autoMode && s.queue == [] && s.process.None?
    ensures Resolved(env) ==>
      Tick(s, env).store.programName == env.resolved.value.1
      && Tick(s, env).store.process == Some(Encoder(Url, Some(env.resolved.value.0)))
      && Tick(s, env).sleep == Config.TICK_SLEEP
    ensures !Resolved(env) ==>
      Tick(s, env).store.programName == s.programName
      && Tick(s, env).store.process == Some(Encoder(Idle, Some(Config.IDLE_SOURCE_PATH)))
      && Tick(s, env).sleep == Config.TICK_SLEEP + Config.RESOLVER_BACKOFF
  {
  }
}
