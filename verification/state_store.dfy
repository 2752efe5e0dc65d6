/**
 The shared state store: broadcast flags, the upload queue, the current-playback
 descriptor, the encoder handle and the counters. Every operation is a pure
 function from one store value to the next; the lock that guards the Python
 object is not modelled because each call is taken to be atomic.
 */
module StateStore {
  import opened Optional
  import Config

  /** The kinds of source the single encoder slot can play. */
  datatype SourceKind = Live | Queue | Idle | Url

  /** The source-type string the store records for a kind. */
  function KindName(k: SourceKind): string {
    match k
    case Live => "LIVE"
    case Queue => "QUEUE"
    case Idle => "IDLE"
    case Url => "URL"
  }

  /**
   The current-playback descriptor. Source type, playing file, start time and
   duration are always written together and cleared together, so they are one
   value here.
   */
  datatype Playback =
    | NoPlayback
    | Playing(kind: SourceKind, file: string, startedAt: int, duration: Option<int>)
  {
    /** True when the recorded source type is `k`. */
    predicate Is(k: SourceKind) {
      Playing? && kind == k
    }
  }

  /** The handle of a launched encoder: what it was asked to play. */
  datatype Encoder = Encoder(kind: SourceKind, source: Option<string>)

  datatype Store = Store(
    broadcasting: bool,
    liveCameraMode: bool,
    queue: seq<string>,
    playback: Playback,
    process: Option<Encoder>,
    totalVideosPlayed: nat,
    totalSegmentsCreated: nat,
    streamStartTime: Option<int>,
    programName: string,
    autoMode: bool,
    hashtag: string)

  /** The counters `get_statistics` reports. */
  datatype Statistics = Statistics(totalVideosPlayed: nat, totalSegmentsCreated: nat, queueLength: nat)

  /** The store as constructed: off air, empty queue, nothing playing. */
  function Initial(): (s: Store)
    ensures !s.broadcasting && !s.liveCameraMode && s.queue == []
    ensures s.playback == NoPlayback && s.process == None
    ensures s.totalVideosPlayed == 0 && s.totalSegmentsCreated == 0 && s.streamStartTime == None
    ensures s.programName == ""
    ensures s.autoMode == Config.AUTO_MODE_ENABLED && s.hashtag == Config.DEFAULT_HASHTAG
  {
    Store(false, false, [], NoPlayback, None, 0, 0, None, "", Config.AUTO_MODE_ENABLED, Config.DEFAULT_HASHTAG)
  }

  /**
   Switches broadcasting on or off. The stream start time is taken from the
   clock the first time broadcasting is switched on and never changes after.
   */
  function SetBroadcasting(s: Store, on: bool, now: int): (r: Store)
    ensures r.broadcasting == on
    ensures s.streamStartTime.Some? ==> r.streamStartTime == s.streamStartTime
    ensures !on ==> r.streamStartTime == s.streamStartTime
    ensures on && s.streamStartTime.None? ==> r.streamStartTime == Some(now)
    ensures r == s.(broadcasting := on, streamStartTime := r.streamStartTime)
  {
    var start := if on && s.streamStartTime.None? then Some(now) else s.streamStartTime;
    s.(broadcasting := on, streamStartTime := start)
  }

  /** Once broadcasting has been switched on, no later switch moves the stream start time. */
  lemma StreamStartTimeIsStable(s: Store, t1: int, on: bool, t2: int)
    ensures SetBroadcasting(SetBroadcasting(s, true, t1), on, t2).streamStartTime
         == SetBroadcasting(s, true, t1).streamStartTime
    ensures SetBroadcasting(s, true, t1).streamStartTime.Some?
  {
  }

  /** Appends an uploaded file name to the back of the queue. */
  function AddToQueue(s: Store, name: string): (r: Store)
    ensures |r.queue| == |s.queue| + 1 && r.queue[|s.queue|] == name
    ensures r.queue[..|s.queue|] == s.queue
    ensures r == s.(queue := r.queue)
  {
    s.(queue := s.queue + [name])
  }

  /** Removes and returns the front of the queue; an empty queue yields `None` and is left as it is. */
  function PopFromQueue(s: Store): (r: (Store, Option<string>))
    ensures s.queue == [] ==> r.0 == s && r.1 == None
    ensures s.queue != [] ==> r.1 == Some(s.queue[0]) && [s.queue[0]] + r.0.queue == s.queue
    ensures r.0 == s.(queue := r.0.queue)
  {
    if |s.queue| > 0 then (s.(queue := s.queue[1..]), Some(s.queue[0])) else (s, None)
  }

  /** Appends each name in turn, as successive uploads do. */
  function AddAll(s: Store, names: seq<string>): (r: Store)
    decreases |names|
  {
    if names == [] then s else AddAll(AddToQueue(s, names[0]), names[1..])
  }

  /** Pops `n` times and collects what came out, as `n` orchestrator selections do. */
  function PopTimes(s: Store, n: nat): (Store, seq<string>)
    decreases n
  {
    if n == 0 then (s, [])
    else
      var (s1, item) := PopFromQueue(s);
      var (s2, rest) := PopTimes(s1, n - 1);
      (s2, (if item.Some? then [item.value] else []) + rest)
  }

  lemma {:induction false} AddAllAppends(s: Store, names: seq<string>)
    ensures AddAll(s, names).queue == s.queue + names
    decreases |names|
  {
    if names != [] {
      AddAllAppends(AddToQueue(s, names[0]), names[1..]);
      assert s.queue + [names[0]] + names[1..] == s.queue + names;
    }
  }

  lemma {:induction false} PopTimesTakesFront(s: Store, n: nat)
    requires n <= |s.queue|
    ensures PopTimes(s, n).1 == s.queue[..n]
    ensures PopTimes(s, n).0.queue == s.queue[n..]
    decreases n
  {
    if n > 0 {
      var s1 := PopFromQueue(s).0;
      assert s1.queue == s.queue[1..];
      PopTimesTakesFront(s1, n - 1);
      assert s.queue[..n] == [s.queue[0]] + s.queue[1..][..n - 1];
      assert s.queue[n..] == s.queue[1..][n - 1..];
    }
  }

  /**
   The queue is first-in first-out: after uploads `names` are appended, popping
   every item yields the earlier contents followed by `names`, in order, and
   leaves the queue empty.
   */
  lemma QueueIsFifo(s: Store, names: seq<string>)
    ensures PopTimes(AddAll(s, names), |s.queue| + |names|).1 == s.queue + names
    ensures PopTimes(AddAll(s, names), |s.queue| + |names|).0.queue == []
  {
    AddAllAppends(s, names);
    PopTimesTakesFront(AddAll(s, names), |s.queue| + |names|);
  }

  /**
   Records what the encoder is now playing, started at `now`; the count of
   videos played grows by one exactly when the source is a queued file.
   */
  function SetCurrentPlayback(s: Store, kind: SourceKind, file: string, duration: Option<int>, now: int): (r: Store)
    ensures r.playback.Is(kind) && r.playback.file == file
    ensures r.playback.startedAt == now && r.playback.duration == duration
    ensures r.totalVideosPlayed == s.totalVideosPlayed + (if kind == Queue then 1 else 0)
    ensures r == s.(playback := r.playback, totalVideosPlayed := r.totalVideosPlayed)
  {
    s.(playback := Playing(kind, file, now, duration),
       totalVideosPlayed := if kind == Queue then s.totalVideosPlayed + 1 else s.totalVideosPlayed)
  }

  /** Forgets the current playback: source, file, start time and duration all become unset. */
  function ClearCurrentPlayback(s: Store): (r: Store)
    ensures r.playback.NoPlayback?
    ensures forall k :: !r.playback.Is(k)
    ensures r == s.(playback := NoPlayback)
  {
    s.(playback := NoPlayback)
  }

  /**
   Seconds since the current playback started, as `get_current_playback`
   reports it: zero when no start time is recorded (a start time of zero reads
   as unset, as Python's truth test does).
   */
  function Elapsed(p: Playback, now: int): (e: int)
    ensures p.NoPlayback? ==> e == 0
    ensures p.Playing? && p.startedAt != 0 ==> p.startedAt + e == now
    ensures p.Playing? && p.startedAt == 0 ==> e == 0
  {
    if p.Playing? && p.startedAt != 0 then now - p.startedAt else 0
  }

  /** The counters reported by `get_statistics`. */
  function GetStatistics(s: Store): (r: Statistics)
    ensures r.queueLength == |s.queue|
    ensures r.totalVideosPlayed == s.totalVideosPlayed && r.totalSegmentsCreated == s.totalSegmentsCreated
  {
    Statistics(s.totalVideosPlayed, s.totalSegmentsCreated, |s.queue|)
  }

  /** Counts one more attributed segment and changes nothing else. */
  function IncrementSegmentCount(s: Store): (r: Store)
    ensures r.totalSegmentsCreated == s.totalSegmentsCreated + 1
    ensures r == s.(totalSegmentsCreated := r.totalSegmentsCreated)
  {
    s.(totalSegmentsCreated := s.totalSegmentsCreated + 1)
  }
}
