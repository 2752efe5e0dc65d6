# Playout core of a single-channel HLS streaming server, in Dafny

The server plays one channel. An upload queue, a live test source, an idle loop and an "auto mode" that fetches videos from a content resolver all share one encoder slot. The encoder writes HLS segments into a directory. The server records which source each segment was cut from, and it ages segments out of that directory through a trash bin.

This project models the decision logic and the bookkeeping as pure functions over immutable values:

- **Orchestrator** (`orchestrator.dfy`): one iteration of the stream manager loop is `Tick(store, env)`. It returns the next store, the encoder actions in order (`Stop`, `Start(kind, source)`, `Resolve(hashtag)`, `SetProgramName(title)`) and the pause before the next iteration. The priorities are: off air first, then live camera, then queue / idle / auto.
- **State store** (`state_store.dfy`): the broadcast flags, the FIFO upload queue, the playback descriptor, the encoder handle and the counters.
- **Segment ledger** (`ledger.dfy`): a map from segment name to its metadata. It supports status transitions, pruning of deleted entries, statistics, the newest active segment and the newest-first history.
- **Segment discovery** (`discovery.dfy`): one pass of the monitor loop. It takes the set difference between the current and the previous listing and attributes new segments to the current playback.
- **Segment lifecycle** (`lifecycle.dfy`, `directory.dfy`):
  - the active directory and the trash are maps from names to entries;
  - cap enforcement moves the oldest surplus segments to the trash;
  - retention expiry runs over the in-memory trash-time map;
  - a forced cleanup empties both.
- **Overlays** (`overlay.dfy`): the overlay filter graph, built as a chain of stages and rendered to text; the extra encoder inputs; and deletion of the logo and the banner.
- **Encoder filter** (`encoder_filter.dfy`): escaping of the program name, the drawtext filter, how it chains after the overlay graph, the mapped output label, and the `-filter_complex` / `-map` / `-i` arguments.

Supporting modules:

- `Optional`: the option type.
- `Config`: the configuration constants.
- `Collections`: distinctness, enumeration of a set and insertion sort.
- `Text`: suffix test and character replacement.

### What the environment supplies

Time, the file system, processes and the resolver are all parameters:

- `Env.now` is the clock.
- `Env.currentExited` and `Env.startedExited` are process polls.
- `Env.files` is the set of paths that exist.
- `Env.probe` is the duration probe.
- `Env.resolved` is the resolver's answer.
- `Dir` values are directory listings with modification times.
- a `failing` set names the files whose move or removal raises. The forced cleanup tries each move and each removal on its own, so it takes one set for failed moves and one for failed removals.

### Idle preemption happens within one iteration

A running idle encoder is preempted by a queued item **within the same iteration**. There is no `continue` after the idle encoder is stopped (app.py:289-292), so control falls through to the selection (app.py:298-306), and the queued item starts in that same iteration. See `Orchestrator.IdlePreemptedInSameTick`.

### A failed directory listing

Listing the segment directory reports an empty list when it fails (trash_manager.py:48-50). The monitor then remembers an empty listing (app.py:242), so on its next successful pass every segment in the directory counts as new. It is attributed again to the current playback and counted again. `Discovery.MonitorSegments` takes the failure as an input and shows this.

## Model

| member | source | states |
|---|---|---|
| `Orchestrator.Tick` | app.py:251-333 | Off air it starts nothing and issues a stop iff a handle exists, changing only the handle and the playback. In live mode it never asks the resolver, leaves the queue and the program name alone, and ends with a LIVE playback. Otherwise it never starts LIVE, and the queue loses at most its front. A running encoder is left exactly as it was unless idle is to be preempted. A free slot ends filled unless the front file was missing. The pause is 1 s, and can be 6 s only on air in auto mode. |
| `Orchestrator.StopEncoder` | app.py:198-212 | With no handle it is a no-op and issues nothing. Otherwise it issues one stop and clears both the handle and the playback descriptor, leaving the rest of the store alone. |
| `Orchestrator.StartEncoder` | app.py:178-182 | The slot holds the new handle. The playback records the kind, the start time and the file: the basename for a queued file, the kind's name otherwise. A duration is known only for an existing queued file. The videos-played counter grows by exactly one for QUEUE and is unchanged for every other kind. |
| `Orchestrator.Select` | app.py:297-331 | A non-empty queue gives up exactly its front name: that name starts as QUEUE iff its file exists, and otherwise it is dropped and not re-queued. With an empty queue in auto mode, a resolved url takes its title as the program name and starts URL; a failed resolution starts IDLE, keeps the program name and waits 1+5 s. Otherwise IDLE starts. |
| `Orchestrator.LiveTick` | app.py:262-275 | A playback that is not LIVE is stopped and LIVE is started, and a LIVE encoder that exited is started again. The queue and the program name are never touched. |
| `Orchestrator.QueueTick` | app.py:277-295 | An exited handle and its playback are cleared before selection. A running non-idle encoder, or idle with an empty queue, leaves everything unchanged. Idle with a non-empty queue is stopped and selection follows. |
| `Orchestrator.OffAirOnlyStops` | app.py:255-259 | Off air, an iteration starts nothing, issues a stop iff a handle exists, and changes nothing but the handle and the playback. |
| `Orchestrator.OffAirRunNeverStarts` | app.py:253-259 | Over any number of iterations off air, nothing starts, and the queue and the program name stay unchanged. |
| `Orchestrator.LiveIgnoresQueue` | app.py:262-275 | In live mode the outcome does not depend on the queue contents, and the resolver is never asked. |
| `Orchestrator.TickKeepsConsistent` | app.py:251-333 | Every iteration keeps "a handle is held iff a playback is recorded, and both have the same kind". |
| `Orchestrator.TickSlotHoldsLastStart` | app.py:251-333 | After an iteration the single slot holds the encoder of the last start issued. If nothing started, it holds the old handle or nothing. |
| `Orchestrator.TickNeverOverwritesRunning` | app.py:262-295 | A still-running encoder is never replaced without a stop: any iteration that starts something while it runs begins with `Stop`. |
| `Orchestrator.ResolverOnlyInAutoMode` | app.py:310-315 | The resolver is asked only on air, outside live mode, in auto mode, with an empty queue and a free slot, and always for the current hashtag. |
| `Orchestrator.TickFrame` | app.py:251-333 | The flags, the hashtag, the stream start time and the segment counter never change. The queue loses at most its front name. The program name changes only with a `SetProgramName` of the new value. |
| `Orchestrator.QueuedFileStartsOnFreeSlot` | app.py:298-306 | With a free slot, an existing queued file starts within one iteration under its own name, and the videos-played counter grows by one. |
| `Orchestrator.MissingFileIsDropped` | app.py:300-308 | A queued name whose file is missing is popped, nothing starts, and nothing else changes. |
| `Orchestrator.ExitWithEmptyQueuePlaysIdle` | app.py:282-331 | When the encoder exits with an empty queue and auto mode off, IDLE starts in the same iteration. |
| `Orchestrator.IdlePreemptedInSameTick` | app.py:289-306 | When idle is running and the queue is non-empty, the actions are exactly `[Stop, Start(QUEUE, front)]` in one iteration, and the front name is popped. |
| `Orchestrator.RunningEncoderUndisturbed` | app.py:289-295 | A running non-idle encoder, or idle with an empty queue, gives the step (same store, no actions, 1 s). |
| `Orchestrator.LiveTakesOverWithinOneTick` | app.py:262-266 | In live mode, a non-live playback gives `[Stop, Start(LIVE)]` within one iteration, whatever the queue holds. |
| `Orchestrator.DeadLiveEncoderRestarts` | app.py:268-272 | An exited LIVE encoder is started again at `now` without a stop. |
| `Orchestrator.AutoModeOutcome` | app.py:310-327 | A resolved video becomes the program name and starts URL. A failure keeps the program name, starts IDLE and waits 6 s. |
| `Orchestrator.Basename` | app.py:181 | The basename is the last component: a suffix of the path that holds no separator and is preceded by a separator whenever it is shorter than the path. A path without a separator is its own basename. |
| `Orchestrator.UploadPath` | app.py:301 | The upload path joins the upload folder and the name. The basename of the path of a name without a separator gives back that name, so a queued name is recorded as its own playing file. |
| `Discovery.MonitorSegments` | app.py:214-247 | The remembered listing becomes the current one, which is empty when listing fails. With a playback set, exactly `current - last` is added as `active` with the playback's file, kind and elapsed time, and the counter grows by that number. Without a playback, the ledger and the store are unchanged. |
| `Discovery.AttributeAll` | app.py:226-240 | Each listed name becomes an entry attributed to the playback, every other entry is kept, and the counter grows by one per name. |
| `Discovery.Attribution` | app.py:232-238 | The entry records the playback's file and kind name, the elapsed time, the configured segment length, `now` and `active`. |
| `StateStore.Initial` | state_manager.py:20-50 | The initial store is off air with an empty queue, nothing playing, zero counters, no start time and an empty program name. Auto mode and the hashtag come from the configuration. |
| `StateStore.SetBroadcasting` | state_manager.py:81-85 | Sets the flag. The start time is set to `now` only when going on air with none recorded, and it is kept otherwise. |
| `StateStore.StreamStartTimeIsStable` | state_manager.py:81-85 | Once set, the stream start time survives any later call. |
| `StateStore.AddToQueue` | state_manager.py:101-103 | Appends the name at the back, keeping the earlier names in order. |
| `StateStore.PopFromQueue` | state_manager.py:105-109 | An empty queue returns none and stays unchanged. Otherwise it returns the front name and the queue is the rest. |
| `StateStore.AddAllAppends` | state_manager.py:101-103 | Adding a sequence of names appends exactly that sequence. |
| `StateStore.PopTimesTakesFront` | state_manager.py:105-109 | `n` pops return the first `n` names in order and leave the rest. |
| `StateStore.QueueIsFifo` | state_manager.py:101-109 | Names come out in the order they went in, after those already queued. |
| `StateStore.SetCurrentPlayback` | state_manager.py:121-129 | Records kind, file, start time and duration. The videos-played counter grows by exactly one for QUEUE and is unchanged otherwise. |
| `StateStore.ClearCurrentPlayback` | state_manager.py:131-136 | No source type, file, start or duration is left, and nothing else changes. |
| `StateStore.Elapsed` | state_manager.py:138-150 | The elapsed time is 0 when nothing plays or no start time is set, and `now - start` otherwise. |
| `StateStore.GetStatistics` | state_manager.py:179-191 | Reports the two counters and the queue length. |
| `StateStore.IncrementSegmentCount` | state_manager.py:175-177 | The segment counter grows by one and nothing else changes. |
| `Ledger.AddSegment` | state_manager.py:242-257 | Stores or overwrites the entry with status `active`. Other entries are unchanged. |
| `Ledger.UpdateSegmentStatus` | state_manager.py:259-264 | A known name gets the new status with the rest of its entry kept. An unknown name leaves the ledger unchanged. |
| `Ledger.GetSegmentInfo` | state_manager.py:266-269 | Returns the entry iff the name is known. |
| `Ledger.GetCurrentSegment` | state_manager.py:271-285 | Returns none iff no entry is active. Otherwise it returns an active entry, with its name, that is no older than any other active entry. |
| `Ledger.Newest` | state_manager.py:279-281 | The chosen candidate's creation time is at least that of every candidate. |
| `Ledger.GetSegmentHistory` | state_manager.py:287-298 | Has the length of Python's `[:limit]`. Every record is a ledger entry, no name appears twice, the list is newest first, and no omitted entry is newer than a listed one. |
| `Ledger.SliceLength` | state_manager.py:298 | Python slice length: `min(limit, n)` for a non-negative limit, and `max(n + limit, 0)` for a negative one. |
| `Ledger.ListNewestFirst` | state_manager.py:289-296 | Every entry appears exactly once, sorted by creation time descending. |
| `Ledger.PrefixKeepsNewest` | state_manager.py:296-298 | A prefix of a newest-first full listing is sorted and holds the newest entries. |
| `Ledger.CleanupDeletedSegments` | state_manager.py:300-313 | Removes exactly the entries whose status is `deleted` and leaves every other entry unchanged. |
| `Ledger.CleanupRemovesDeletedCount` | state_manager.py:300-313 | After pruning, the statistics report no `deleted` entries and the same `active` and `archived` counts, and the total drops by exactly the old `deleted` count. |
| `Ledger.GetStats` | state_manager.py:315-330 | The corrected statistics: the total is the ledger size, and each status count is the number of entries with that status. The sum is at most the total, and equals it iff every status is one of the three. |
| `Ledger.StatusCountsBound` | state_manager.py:324-328 | The three status counts add up to at most the ledger size, with equality iff no other status occurs. |
| `Ledger.GetStatsAsWritten` | state_manager.py:315-330 | The statistics as coded: same status counts, but the total also counts entries whose status is `total`. |
| `Ledger.StatsAgreeOnKnownStatuses` | state_manager.py:315-330 | When every status is one of the three, the coded and the corrected statistics agree. |
| `Ledger.StatsTotalOvercounts` | state_manager.py:318-328 | A one-entry ledger with status `total` is reported with total 2. |
| `Directory.ActiveSegments` | trash_manager.py:38-50 | Lists exactly the `.ts` regular files, each once, oldest first by mtime. |
| `Directory.TrashSegments` | trash_manager.py:52-63 | Lists exactly the `.ts` names in the trash, each once. |
| `Lifecycle.MoveToTrash` | trash_manager.py:65-84 | Succeeds iff the entry exists and the move does not fail. On success the entry leaves the active directory for the trash, is stamped `now` and becomes `archived`. Only that name is added to the trash and the stamps, and every other entry and stamp is kept. On failure nothing changes. |
| `Lifecycle.DeletePermanently` | trash_manager.py:86-107 | Succeeds iff a trash file exists and its removal does not fail. On success it leaves the trash, its stamp is dropped and it becomes `deleted`. Exactly that name leaves the trash and the stamps, and nothing else changes. On failure nothing changes, so the stamp stays. |
| `Lifecycle.MoveAll` | trash_manager.py:116-117 | Moving names one by one keeps the remaining active entries unchanged, removes every named non-failing segment, and keeps every entry that was not named or whose move fails. |
| `Lifecycle.DeleteAll` | trash_manager.py:133-134 | Deleting names one by one leaves the active directory alone and keeps the remaining trash entries unchanged. It removes every named non-failing trash file and keeps every entry that was not named, is not a file, or whose removal fails. |
| `Lifecycle.MoveAllMovesMovable` | trash_manager.py:116-117 | Moving names one by one equals moving at once exactly those that exist and do not fail. |
| `Lifecycle.DeleteAllDeletesDeletable` | trash_manager.py:133-134 | Deleting names one by one equals removing at once exactly those that are trash files and do not fail. |
| `Lifecycle.CleanupOldSegments` | trash_manager.py:109-122 | At or under the cap nothing happens. Above it, exactly `count - cap` segments are chosen, distinct, and none newer than a kept one. The result is moving the non-failing ones, so the count stays at least the cap and equals it when no move fails. |
| `Lifecycle.CountAfterMoves` | trash_manager.py:113-117 | Moving the chosen segments lowers the active count by at most their number, and by exactly that when none fails. |
| `Lifecycle.OldestPrefix` | trash_manager.py:113-114 | The first `cut` names of the mtime-ordered listing are no newer than any other segment. |
| `Lifecycle.MovedAreArchived` | trash_manager.py:65-84 | Every moved segment's ledger status is `archived`, and every other entry is unchanged. |
| `Lifecycle.CleanupTrash` | trash_manager.py:124-141 | Erases exactly the stamped, expired trash files whose removal succeeds, and the active directory is untouched. The ledger's `deleted` entries are pruned only when something was selected. |
| `Lifecycle.ExpiryIsStrict` | trash_manager.py:130-131 | Age equal to the retention time keeps a segment, one second more erases it, and an unstamped trash entry is never erased. |
| `Lifecycle.ForceCleanupAll` | trash_manager.py:190-203 | Only segments whose move fails stay active, and non-segment entries are kept. A moved segment whose removal fails stays in the trash with its active entry, stamped `now` and `archived`. The erased names are the moved segments whose removal succeeds plus the segment-named trash files whose removal succeeds. Exactly those leave the trash and the stamps and become `deleted`. Every other entry is unchanged. |
| `Lifecycle.ForceOutcome` | trash_manager.py:190-201 | Name by name: an erased name leaves the trash and the stamps and becomes `deleted`. A moved segment whose removal fails stays in the trash as its active entry, stamped `now` and `archived`. |
| `Lifecycle.AllMoved` | trash_manager.py:193-196 | Offering every active segment for a move leaves exactly the ones whose move fails. |
| `Lifecycle.AllDeleted` | trash_manager.py:198-201 | Offering every segment-named trash entry for removal leaves only failing files. |
| `Overlay.OverlayFilter` | overlay_manager.py:172-212 | Returns none iff overlays are off, or neither the logo nor the banner is both enabled and on disk. Every filter it returns ends in `[out]`. |
| `Overlay.Chain` | overlay_manager.py:187-210 | Stage `i` overlays input `i+1` at the `i`-th position. The first stage reads `[0:v]`, later stages read `[tmp]`, and only the last writes `[out]`. |
| `Overlay.RenderEndsWithOut` | overlay_manager.py:194-210 | A rendered chain whose last stage writes `[out]` ends in `[out]`. |
| `Overlay.BothOverlaysFilter` | overlay_manager.py:192-198 | With both ready: `[0:v][1:v]overlay=10:10[tmp];[tmp][2:v]overlay=0:H-h-10[out]`, with exactly the inputs logo then banner. |
| `Overlay.LogoOnlyFilter` | overlay_manager.py:199-204 | With only the logo ready, the logo is `[1:v]` at the logo position, and it is the only input. |
| `Overlay.BannerOnlyFilter` | overlay_manager.py:205-210 | With only the banner ready, the banner is `[1:v]` at the banner position, and it is the only input. |
| `Overlay.PositionTexts` | config.py:81-86 | The configured positions render as `10:10` and `0:H-h-10`. |
| `Overlay.OverlayInputs` | overlay_manager.py:214-227 | Logo before banner, each present iff enabled and on disk, and nothing else. There is one input per ready overlay, so none is repeated. |
| `Overlay.LabelsMatchInputs` | overlay_manager.py:187-227 | One stage per extra input. Stage `i` reads encoder input `i+1`, and it is at the logo position iff the `i`-th extra input is the logo. With overlays on, a filter exists iff there is an extra input. |
| `Overlay.InputsNotGatedBySwitch` | overlay_manager.py:177-227 | With overlays off and the logo on disk, the filter is none while the inputs are not empty. |
| `Overlay.RemoveFile` | overlay_manager.py:153-154 | Succeeds iff the file is absent or its removal works. On success it is gone; on failure nothing changes. |
| `Overlay.DeleteLogo` | overlay_manager.py:150-159 | On success the logo is off disk, recorded absent, and the banner is untouched. On failure nothing changes. |
| `Overlay.DeleteBanner` | overlay_manager.py:161-170 | On success the banner is off disk, recorded absent, and the logo is untouched. On failure nothing changes. |
| `Overlay.DeleteIsIdempotent` | overlay_manager.py:150-170 | After a successful delete, a second delete succeeds and changes nothing. |
| `Overlay.DeletedLogoLeavesFilter` | overlay_manager.py:181 | After a successful logo delete, the logo is neither ready nor an input. |
| `Text.ReplaceChar` | app.py:120 | A single character becomes the replacement if it is the one replaced and stays itself otherwise, and the empty string stays empty. A replaced character is absent when the replacement lacks it, and an absent character leaves the input unchanged. |
| `Text.ReplaceCharAppend` | app.py:120 | Replacement works piece by piece over a concatenation. With the single-character case, this fixes the whole result. |
| `EncoderFilter.EscapeChars` | app.py:120 | The per-character escape never starts with `:`, and every `:` in it follows a backslash. |
| `EncoderFilter.EscapeIsPerCharacter` | app.py:120 | Replacing `:` and then `'` equals escaping each character on its own. |
| `EncoderFilter.Escape` | app.py:120 | Escaping colons and then quotes equals escaping each character on its own, and it is lossless: reading it back gives the program name. |
| `EncoderFilter.UnescapeEscapeChars` | app.py:120 | Reading back the per-character escape gives the input. |
| `EncoderFilter.ProgramNameGraph` | app.py:113-135 | The name is not drawn unless the feature is on, the name is non-empty and the font exists; then the filter and the `[out]` label are unchanged. A drawn name always yields a filter ending in its drawtext and the mapped label. After an overlay graph, that graph followed by `;[out]` is kept as the prefix and the label becomes `[out_final]`. Without one the filter starts at `[0:v]` and the label stays `[out]`. An overlay ending in `[out]` always ends in the label that is mapped. |
| `EncoderFilter.DrawTextNamesProgram` | app.py:120-127 | The drawtext filter determines the program name: two names with the same filter are equal. |
| `EncoderFilter.MappedLabelIsProduced` | app.py:115-135 | Whenever a filter exists, it ends in the label that is mapped. Without one, the label is `[out]`. |
| `EncoderFilter.ChainKeepsOverlay` | app.py:129-132 | Drawing after an overlay graph keeps it as the prefix and renames the output. |
| `EncoderFilter.DrawTextAfterOverlay` | app.py:129-132 | With overlays ready and a name drawn, the filter is the overlay graph followed by the drawtext tail, and the label is `[out_final]`. |
| `EncoderFilter.DrawTextWithoutOverlay` | app.py:133-135 | With overlays off, the name is drawn onto `[0:v]`, and `[out]` is mapped. |
| `EncoderFilter.FilterArgs` | app.py:147-149 | `-filter_complex`/`-map` arguments appear iff the filter is a non-empty text, and they map the graph's label and `0:a`. |
| `EncoderFilter.NoGraphNoMap` | app.py:147-149 | With no overlays and nothing drawn, no filter or map arguments are passed. |
| `EncoderFilter.InputArgs` | app.py:105-108 | Gives one `-i` pair per overlay input, in order. |

## Findings

| source | as written | input that shows it | evidently intended | confidence | as-written member | corrected member |
|---|---|---|---|---|---|---|
| state_manager.py:318-328 | The count loop increments `stats[status]` whenever the status is a key of `stats`, and `'total'` is one of those keys. | A ledger with one entry whose status is `"total"` (for instance, loaded from the metadata file): the total is reported as 2. | `total` is the number of entries, and only the three lifecycle statuses are counted. | not executed; reachable only through a stored status equal to `total`, because the system itself writes only the three statuses | `Ledger.GetStatsAsWritten` (`Ledger.StatsTotalOvercounts`) | `Ledger.GetStats` |

## Left out

- The HTTP surface (routes, uploads, playlist text, static files) is not modelled. It only calls the modelled operations.
- Process control is left out. Launching the encoder, the exact encoding and HLS arguments, terminate/wait/kill, and the stderr reader threads become the abstract actions `Stop` and `Start(kind, source)`. Exited-or-not is a boolean the environment supplies.
- A failed encoder launch is left out: in the model `Start` always succeeds. In the source, `subprocess.Popen` raising (app.py:165-176) is not caught anywhere in `stream_manager_loop` (app.py:251-333), so the manager thread ends and nothing further is scheduled.
- Overlay.LabelsMatchInputs: assumes the main source is one encoder input. LIVE, and IDLE when the idle file is missing, add two lavfi inputs (video, then a sine tone) before the overlay files (app.py:77-91). There, `[1:v]` names the tone input, not the first overlay, so the stage-to-input agreement does not hold. The model does not count main inputs.
- EncoderFilter.FilterArgs: the `-map 0:a` it emits (app.py:149) is right only when input 0 carries the audio. With the two lavfi inputs of LIVE or the idle fallback, input 0 is video only. The model does not check which input has audio.
- The ffprobe duration probe is an oracle (`Env.probe`). The content resolver (content_provider.py) is an oracle (`Env.resolved`) returning an optional `(url, title)`. content_provider.py is not part of this model.
- Threads, locks, the stop event and the periodic cleanup loop are not modelled. Each operation is atomic and sequential, and the two loops are single iterations.
- Discovery reads the playback once per pass, not once per segment as the source does. The two agree because nothing else runs during a pass.
- Times are integers: seconds from a clock parameter. Creation times are integers, not ISO-8601 strings. The two compare in the same order.
- `Ledger.Newest`: ties between equal creation times are resolved by the loop, not by Python's stable sort order. The history does not fix the order among equal creation times either.
- Persistence is left out: saving and loading the ledger as JSON, wiping directories at startup, and creating directories.
- Status is always present in the model, so the source's default of `active` for a missing status does not arise.
- A failed listing in the lifecycle operations is not modelled. `get_active_segments` and `get_trash_segments` report an empty list on error (trash_manager.py:48-50, 61-63).
  - In cap enforcement, a failed active listing means nothing is moved.
  - In a forced cleanup, a failed active listing skips only the moves (trash_manager.py:193-196), and the trash is still listed and emptied.
  - In a forced cleanup, a failed trash listing skips only the removals (trash_manager.py:198-201), and the moves still happen.
  - In the trash expiry, a failed trash listing does not apply, because expiry reads the in-memory trash-time map.
  The monitor's use of the active listing does model the failure.
- Image validation, resizing and overlay status are left out, because they are foreign-library work (PIL) and floating-point sizes. Overlay uploads are left out with them.
- The trash statistics (`get_stats` with MB rounding and retention in hours) and the host statistics are left out, because they are floating point and OS queries.
- Paths are joined with `/`. A queued name is taken to contain no separator; uploads pass through a file-name sanitiser before they are queued. Moving onto an existing trash directory of the same name is not modelled: a move replaces the trash entry.
- A missing trash directory, for which the listing returns an empty list, is not modelled. The trash is always a directory.
- The control-surface setters for live mode, program name, auto mode and hashtag are plain field updates of the store, so they have no separate members.
- Program-name enablement and font existence are parameters of `EncoderFilter.ProgramNameGraph`. The overlay switches are a `Switches` value. The encoder command around the filter is not built.
