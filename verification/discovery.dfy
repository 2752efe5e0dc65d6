/**
 One pass of the segment discovery loop (`monitor_segments`): list the active
 segments, take the names not seen on the previous pass, and attribute each to
 the current playback in the ledger, counting it in the store. When nothing is
 playing the new names are remembered but not attributed.
 */
module Discovery {
  import Config
  import Collections
  import opened Directory
  import Ledger
  import StateStore

  /** The ledger entry a segment first seen at `now` receives while `p` is playing. */
  function Attribution(p: StateStore.Playback, now: int): (m: Ledger.SegmentMeta)
    requires p.Playing?
    ensures m.status == Ledger.ACTIVE && m.duration == Config.HLS_SEGMENT_DURATION
    ensures m.sourceVideo == p.file && m.sourceType == StateStore.KindName(p.kind)
    ensures m.startTime == StateStore.Elapsed(p, now) && m.createdAt == now
  {
    Ledger.SegmentMeta(p.file, StateStore.KindName(p.kind), StateStore.Elapsed(p, now),
                       Config.HLS_SEGMENT_DURATION, now, Ledger.ACTIVE)
  }

  /**
   Attributes each of `names` to the playback `store` holds, in order: every
   name becomes an `active` entry carrying the playback's file, kind and elapsed
   time, every other entry is kept, and the segment counter grows by one per name.
   */
  method AttributeAll(ledger: Ledger.Ledger, store: StateStore.Store, names: seq<string>, now: int)
    returns (ledger': Ledger.Ledger, store': StateStore.Store)
    requires store.playback.Playing?
    ensures ledger'.Keys == ledger.Keys + (set n | n in names)
    ensures forall n :: n in names ==> ledger'[n] == Attribution(store.playback, now)
    ensures forall k :: k in ledger && k !in names ==> k in ledger' && ledger'[k] == ledger[k]
    ensures store' == store.(totalSegmentsCreated := store.totalSegmentsCreated + |names|)
  {
    ledger' := ledger;
    store' := store;
    var m := Attribution(store.playback, now);
    var i := 0;
    while i < |names|
      invariant 0 <= i <= |names|
      invariant store' == store.(totalSegmentsCreated := store.totalSegmentsCreated + i)
      invariant ledger'.Keys == ledger.Keys + (set n | n in names[..i])
      invariant forall n :: n in names[..i] ==> ledger'[n] == m
      invariant forall k :: k in ledger && k !in names[..i] ==> k in ledger' && ledger'[k] == ledger[k]
    {
      var p := store'.playback;
      ledger' := Ledger.AddSegment(ledger', names[i], p.file, StateStore.KindName(p.kind),
                                   StateStore.Elapsed(p, now), Config.HLS_SEGMENT_DURATION, now);
      store' := StateStore.IncrementSegmentCount(store');
      assert names[..i + 1] == names[..i] + [names[i]];
      i := i + 1;
    }
    assert names[..i] == names;
  }

  /**
   What a pass of the monitor sees: the segment files of the directory, or
   nothing when listing the directory fails (the listing then reports an empty
   list rather than an error).
   */
  function Listed(hls: Dir, listingFails: bool): (r: set<string>)
    ensures listingFails ==> r == {}
    ensures !listingFails ==> forall n :: n in r <==> n in hls && HasSegmentSuffix(n) && hls[n].isFile
  {
    if listingFails then {} else Segments(hls)
  }

  /**
   Returns the listing to remember for the next pass, the ledger and the store.
   Exactly the segments in the current listing but not in `last` are new; with a
   playback set, each of them is added as `active` with the playback's file,
   kind and elapsed time, every other entry is kept, and the segment counter
   grows by the number of new segments. Without a playback nothing but the
   remembered listing changes. A failed listing is remembered as empty, so the
   next pass that lists successfully treats every segment as new again.
   */
  method MonitorSegments(last: set<string>, hls: Dir, listingFails: bool, store: StateStore.Store,
                         ledger: Ledger.Ledger, now: int)
    returns (seen: set<string>, ledger': Ledger.Ledger, store': StateStore.Store)
    ensures seen == Listed(hls, listingFails)
    ensures store.playback.NoPlayback? ==> ledger' == ledger && store' == store
    ensures store.playback.Playing? ==> ledger'.Keys == ledger.Keys + (seen - last)
    ensures store.playback.Playing? ==>
      forall n :: n in seen - last ==> ledger'[n] == Attribution(store.playback, now)
    ensures forall k :: k in ledger && k !in seen - last ==> k in ledger' && ledger'[k] == ledger[k]
    ensures store.playback.Playing? ==>
      store'.totalSegmentsCreated == store.totalSegmentsCreated + |seen - last|
    ensures store' == store.(totalSegmentsCreated := store'.totalSegmentsCreated)
  {
    var current := [];
    if !listingFails {
      current := ActiveSegments(hls);
    }
    seen := set n | n in current;
    var newNames := Collections.Enumerate(seen - last);
    if store.playback.NoPlayback? {
      ledger', store' := ledger, store;
    } else {
      ledger', store' := AttributeAll(ledger, store, newNames, now);
      assert (set n | n in newNames) == seen - last;
    }
  }
}
