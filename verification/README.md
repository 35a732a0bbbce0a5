# Cover-flow carousel engine

A Dafny model of the album cover-flow carousel of a small fan-site page. The
engine exists in two variants:

- **Audio cover flow** (`LanaCoverFlowBlock` in `src/components/RevealBento.tsx`),
  module `AudioCoverFlow`. It keeps a circular cursor over a fixed album list
  and a transition lock that drops navigation while a move settles. It shows a
  five-slot window (offsets -2..2) where each slot gets a centre, adjacent or
  far tier. A play/pause machine tracks `isPlaying` and one audio element, and
  re-targets the audio when the cursor moves while playing.
- **Autoplay cover flow** (`LanaCoverFlow` in `src/components/sapCarousel.tsx`),
  module `AutoplayCoverFlow`. It has the same cursor and lock, plus a
  `goToIndex` that ignores the current index. A timer tick advances only when
  unlocked. It shows a seven-slot window (offsets -3..3) with distance-based
  scale and opacity.

Shared modules:

- `CircularCursor` writes out JavaScript's truncated `%` (`JsRem`) and the
  cursor steps built on it.
- `Window` holds the window projection `getVisibleItems` that both variants use.
  A negative JavaScript index yields `undefined`, so the loop would throw. The
  projection returns that case as an error value.
- `Wrappers` holds `Option` and `Result`.

State is an immutable record and every handler is a pure transition function.
The timers and the audio promises are explicit events: `Settle` (the settle
timer releases the lock), `Tick` (the autoplay interval fires), and
`PlayResolved` / `PlayRejected` (one outstanding `play()` promise settles).

Four behaviours of the code are worth knowing before reading the model:

- While playing, the loaded track can differ from the album under the
  cursor. Suppose the user navigates after pressing play but before the play
  request resolves. `isPlaying` is still false, so the audio is not
  re-targeted, and the late resolution plays the previous album's track.
  `AudioCoverFlow.PlayingCanDesync` exhibits this run.
  `AudioCoverFlow.PlayingStaysSynced` proves what does hold: once the track
  matches the cursor while playing, it keeps matching as long as playback
  continues.
- Only the autoplay variant's `goToIndex` skips the current index. The audio
  variant's `setIndexSafely` admits it, takes the lock and, while playing,
  issues a new play request.
- Only the audio variant steps one place on a slot click. The autoplay
  variant jumps to the slot's album.
- When a track plays to its end, the element pauses by itself but
  `isPlaying` stays true, so the page keeps showing the pause control. The
  element has no `loop` attribute and no `ended` handler.
  `AudioCoverFlow.EndedTrackStillShowsPlaying` states this.

## Model

| member | source | states |
|---|---|---|
| CircularCursor.JsRem | src/components/sapCarousel.tsx:116 | JavaScript's `%` lies strictly between -n and n. It agrees with the Euclidean remainder on non-negative dividends and is non-positive on negative ones. |
| CircularCursor.Next | src/components/RevealBento.tsx:171 | `(c + 1) % N` stays a valid index. It is `c + 1`, except that it wraps from the last index to 0. |
| CircularCursor.Prev | src/components/RevealBento.tsx:175 | `(c - 1 + N) % N` stays a valid index. It is `c - 1`, except that it wraps from 0 to the last index. |
| CircularCursor.WrapIndex | src/components/RevealBento.tsx:181 | `(c + offset + N) % N` lies in (-N, N). When the dividend is non-negative it is a valid index equal to the Euclidean remainder. |
| CircularCursor.NextPrevInverse | src/components/RevealBento.tsx:170-176 | A forward step followed by a backward step restores the cursor, and so does the reverse order. |
| CircularCursor.WrapAroundFive | src/components/RevealBento.tsx:170-176 | With five albums, back from 0 gives 4 and forward from 4 gives 0. |
| CircularCursor.WrapIndexInRange | src/components/RevealBento.tsx:181 | For a valid cursor and an offset no further left than N, the window index is valid and equals `(c + offset) mod N`. |
| CircularCursor.WrapIndexInjective | src/components/sapCarousel.tsx:115-116 | Two distinct offsets less than N apart land on distinct album indices. |
| Window.Distance | src/components/sapCarousel.tsx:183 | `Math.abs(offset)` is the offset or its negation, and never negative. |
| Window.Collect | src/components/sapCarousel.tsx:115-122 | The loop succeeds exactly when every offset in the range has a non-negative index. On failure it reports the first offset that has none. On success it yields one slot per offset, in order, each holding the wrapped album and its key. |
| Window.Project | src/components/sapCarousel.tsx:111-125 | The window has exactly `2R+1` slots with offsets `-R..R` in ascending order. The centre slot holds `albums[cursor]` and keys are pairwise distinct. The window always exists when N is at least R, and it exists exactly when every offset has an index. |
| Window.KeysDistinct | src/components/sapCarousel.tsx:115-120 | Slot keys `id-cursor-offset` are unique within one projection because the offsets differ. |
| Window.AudioWindowTotal | src/components/RevealBento.tsx:178-189 | The radius-2 window exists for every non-empty album list, including a single album. |
| Window.AutoplayWindowFailure | src/components/sapCarousel.tsx:115-120 | The radius-3 window fails exactly for two albums with the cursor on the first one. There, offset -3 reads `albums[-1]`. |
| Window.WideWindowDistinct | src/components/sapCarousel.tsx:111-120 | With at least `2R+1` albums, the slots show pairwise distinct album positions, and so pairwise distinct albums when the list has no repeats. |
| AudioCoverFlow.Initial | src/components/RevealBento.tsx:78-81 | The mount state has cursor 0, is unlocked and stopped, has no pending play, and satisfies the invariant. |
| AudioCoverFlow.PlayAudioForIndex | src/components/RevealBento.tsx:129-142 | With no handle, nothing changes. Otherwise the source becomes the requested track, and it is reloaded only if it differed. The volume becomes 0.6 and one more play request is pending. `isPlaying`, the cursor and the lock are unchanged. |
| AudioCoverFlow.PauseAudio | src/components/RevealBento.tsx:144-148 | With no handle, nothing changes. Otherwise the element is paused and `isPlaying` is false, with the source and the pending requests kept. |
| AudioCoverFlow.Toggle | src/components/RevealBento.tsx:150-158 | With no handle, nothing changes. If playing, it pauses. If stopped, it requests the cursor's track at volume 0.6 and stays stopped until the request settles. Cursor and lock are untouched. |
| AudioCoverFlow.SetIndexSafely | src/components/RevealBento.tsx:160-168 | While locked, it changes nothing. Otherwise it takes the lock and sets the cursor to the target, even the current one. While playing, it loads the target's track and requests play. While stopped, it leaves the audio alone. |
| AudioCoverFlow.GoToNext | src/components/RevealBento.tsx:170-172 | An admitted call locks and steps forward with wrap-around. A locked call changes nothing. |
| AudioCoverFlow.GoToPrev | src/components/RevealBento.tsx:174-176 | An admitted call locks and steps back with wrap-around. A locked call changes nothing. |
| AudioCoverFlow.ClickSlot | src/components/RevealBento.tsx:227-229 | The centre slot does nothing. A slot with positive offset acts as next and a slot with negative offset acts as previous, one step whatever its distance. |
| AudioCoverFlow.SettleLock | src/components/RevealBento.tsx:167 | The settle timer releases the lock and changes nothing else. |
| AudioCoverFlow.ResolvePlay | src/components/RevealBento.tsx:140 | A pending play that resolves sets `isPlaying` and unpauses the element, leaving the source unchanged. With nothing pending, nothing happens. |
| AudioCoverFlow.EndTrack | src/components/RevealBento.tsx:429 | At the end of its track the element pauses. The source is kept, and `isPlaying`, the cursor, the lock and the pending requests are unchanged. |
| AudioCoverFlow.EndedTrackStillShowsPlaying | src/components/RevealBento.tsx:429 | After a playing track ends, the flag still shows playing while the element is paused. The next toggle only clears the flag and issues no play request. |
| AudioCoverFlow.RejectPlay | src/components/RevealBento.tsx:141 | A pending play that is rejected clears `isPlaying` and leaves the audio element unchanged. With nothing pending, nothing happens. |
| AudioCoverFlow.Step | src/components/RevealBento.tsx:129-176 | Every event keeps the invariant. Only admitted navigations take the lock, and only the settle event releases it. The cursor moves only on admitted navigations. A locked navigation changes nothing. `isPlaying` turns on only when a pending play resolves. |
| AudioCoverFlow.Run | src/components/RevealBento.tsx:160-176 | Any sequence of page events keeps the cursor valid. It never shows playing without an audio element, and no play request is pending without one. |
| AudioCoverFlow.AtMostOneMovePerSettle | src/components/RevealBento.tsx:160-167 | Between settles, at most one navigation is admitted and the cursor changes at most once. From a locked state, none is admitted and the cursor stays put. |
| AudioCoverFlow.SecondNavigationDropped | src/components/RevealBento.tsx:161-162 | Of two navigations with no settle between them, the first takes the lock and the second changes nothing. |
| AudioCoverFlow.NextThenPrevRestores | src/components/RevealBento.tsx:170-176 | Next, settle, previous restores the cursor, and so does the reverse order. |
| AudioCoverFlow.RedundantDotAdmitted | src/components/RevealBento.tsx:385-388 | A dot for the current album still takes the lock and keeps the cursor. While playing with the cursor's track already loaded, it issues another play request without reloading. |
| AudioCoverFlow.ClickStepsNotJumps | src/components/RevealBento.tsx:227-229 | With at least two albums, an unlocked click on a slot two places out does not land on that slot's position. |
| AudioCoverFlow.PlayingStaysSynced | src/components/RevealBento.tsx:160-166 | If the loaded track matches the cursor while playing, it still matches after any event that leaves the component playing. |
| AudioCoverFlow.PlayingCanDesync | src/components/RevealBento.tsx:138-166 | The run play, next, resolve ends playing album 1 with album 0's track loaded. |
| AudioCoverFlow.RejectedPlayLeavesStopped | src/components/RevealBento.tsx:138-158 | Toggle followed by rejection leaves the component stopped, with no pending request and the same cursor. |
| AudioCoverFlow.TierOf | src/components/RevealBento.tsx:219-221 | A slot is centre exactly at offset 0, adjacent exactly at offset ±1, and far otherwise. |
| AudioCoverFlow.TierScale | src/components/RevealBento.tsx:233 | Scale lies between 0.6 and 1.2. It is 1.2 exactly for the centre tier and 0.6 exactly for the far tier. |
| AudioCoverFlow.TierOpacity | src/components/RevealBento.tsx:235 | Opacity lies between 0.4 and 1. It is 1 exactly for the centre tier and 0.4 exactly for the far tier. |
| AudioCoverFlow.TierWeightsOrdered | src/components/RevealBento.tsx:233-235 | Scale (1.2 > 0.85 > 0.6) and opacity (1 > 0.8 > 0.4) fall strictly from centre to adjacent to far, and never grow with distance. |
| AudioCoverFlow.VisibleItems | src/components/RevealBento.tsx:178-192 | The window has five slots with offsets -2..2 in ascending order, holding `albums[(c+i+N)%N]`. The middle slot is `albums[currentIndex]` and the only centre tier. Adjacent tiers sit at positions 1 and 3. |
| AutoplayCoverFlow.Initial | src/components/sapCarousel.tsx:8-9 | The mount state has cursor 0 and is unlocked. |
| AutoplayCoverFlow.GoToNext | src/components/sapCarousel.tsx:79-84 | An unlocked call locks and steps forward with wrap-around, staying in range. A locked call changes nothing. |
| AutoplayCoverFlow.GoToPrev | src/components/sapCarousel.tsx:86-91 | An unlocked call locks and steps back with wrap-around, staying in range. A locked call changes nothing. |
| AutoplayCoverFlow.GoToIndex | src/components/sapCarousel.tsx:93-98 | A locked call or a call for the current index changes nothing. Otherwise the cursor becomes the target and the lock is set. |
| AutoplayCoverFlow.ClickSlot | src/components/sapCarousel.tsx:190-195 | The centre slot does nothing, and a locked click does nothing. An unlocked click on another slot moves the cursor to that slot's index `(c + offset + N) % N`, a direct jump rather than a single step, so the cursor's album is the album the slot shows. It takes the lock exactly when the cursor actually moves. |
| AutoplayCoverFlow.AutoplayTick | src/components/sapCarousel.tsx:101-106 | An unlocked tick locks and advances exactly one place. A locked tick is skipped. |
| AutoplayCoverFlow.SettleLock | src/components/sapCarousel.tsx:83 | The settle timer releases the lock and keeps the cursor. |
| AutoplayCoverFlow.Step | src/components/sapCarousel.tsx:79-106 | Every event keeps the cursor valid. Only admitted events take the lock, and only the settle event releases it. The cursor moves only on admitted events. While locked, every other event changes nothing. |
| AutoplayCoverFlow.Run | src/components/sapCarousel.tsx:79-106 | Any feasible sequence of events keeps the cursor a valid index. |
| AutoplayCoverFlow.AtMostOneMovePerSettle | src/components/sapCarousel.tsx:79-98 | Between settles, at most one event is admitted and the cursor changes at most once. From a locked state, none is admitted. |
| AutoplayCoverFlow.TickAdvancesOnce | src/components/sapCarousel.tsx:101-106 | A locked tick leaves the state unchanged. After the settle, the next tick advances exactly one place. |
| AutoplayCoverFlow.NextThenPrevRestores | src/components/sapCarousel.tsx:79-91 | Next, settle, previous restores the cursor, and so does the reverse order. |
| AutoplayCoverFlow.ClickCentresClickedAlbum | src/components/sapCarousel.tsx:190-195 | After an unlocked click on a non-centre slot, the clicked slot's album is the centre of the new window. |
| AutoplayCoverFlow.WideListClicksAdmitted | src/components/sapCarousel.tsx:190-195 | With at least seven albums, an unlocked click on any non-centre slot is admitted. |
| AutoplayCoverFlow.SevenSlotWindow | src/components/sapCarousel.tsx:111-125 | The window has seven slots with offsets -3..3 in ascending order. The centre holds `albums[currentIndex]` and keys are unique. With at least seven distinct albums, all seven slots hold distinct albums. |
| AutoplayCoverFlow.SlotScale | src/components/sapCarousel.tsx:200 | The centre scale is 1. Other scales lie between 0.5 and 0.85. |
| AutoplayCoverFlow.SlotOpacity | src/components/sapCarousel.tsx:202 | Opacity is 1 at the centre and never below 0.2. |
| AutoplayCoverFlow.Max | src/components/sapCarousel.tsx:200 | `Math.max` is at least each argument and equals one of them. |
| AutoplayCoverFlow.WeightsNonIncreasing | src/components/sapCarousel.tsx:200-202 | Scale and opacity never grow as the distance from the centre grows. |
| AutoplayCoverFlow.WindowWeightsStrict | src/components/sapCarousel.tsx:200-202 | Within the seven-slot window, neither floor is reached. Scale and opacity fall strictly with distance. |

## Left out

- Markup, styling and motion: JSX, class names, spring parameters, the x/z/rotateY pixel values, hover scales and the size classes per tier. They are rendering only.
- The rest of the page (`RevealBento`, `Card`, `HeaderBlock`, `SocialsBlock`, `AboutBlock`, `GalleryBlock`, `Footer`). It is static layout without state.
- Real time. The 400- and 300-unit settle timeouts and the 4000-unit interval are events. The interval is re-created whenever `isTransitioning` changes, which resets its phase, and that is not modelled.
- React state batching and stale closures. Every handler is one atomic transition on the current state.
- The browser audio element. `play()` is a count of pending promises that the environment settles in any order. Of the element's own events only the end of a track is modelled. The browser aborting a pending `play()` on pause or source change, playback position and media loading are not modelled.
- URL normalisation of `audio.src`. The comparison before a source assignment is on raw strings.
- AudioCoverFlow.ResolvePlay: the element's `paused` flag clears only when a play request resolves. A browser clears it as soon as `play()` is called. The component never reads the flag, so no handler's behaviour depends on this.
- Unmount cleanup: `clearInterval` and stopping the audio.
- The static album and track data. They are arbitrary lists, with the track list as long as the album list.
- The render-key string `${id}-${currentIndex}-${offset}`. It is kept as its three parts rather than formatted text.
- Out-of-range navigation targets. The page only produces dots for indices 0..N-1 and slots that were rendered, so the events are restricted to those.
- AutoplayCoverFlow.SlotScale: exact reals replace JavaScript doubles, so `1 - 3 * 0.15` is 0.55 exactly rather than its nearest double.
- AutoplayCoverFlow.SlotOpacity: exact reals replace JavaScript doubles in `1 - |offset| * 0.25`.
