/**
  The audio cover flow (`LanaCoverFlowBlock`): a circular cursor over a fixed
  album list, a transition lock released by a settle timer (400 time units),
  a five-slot window with three visual tiers, and a play/pause machine that
  keeps one audio element and re-targets it when the cursor moves while
  playing.

  Timers and audio promises are events: `Settle` is the settle timer firing,
  `PlayResolved` / `PlayRejected` are the settling of one outstanding
  `play()` promise, and `TrackEnded` is the element reaching the end of its
  track. Every handler is one atomic transition.
 */
module AudioCoverFlow {
  import opened Wrappers
  import opened CircularCursor
  import opened Window

  /** Offsets -2 .. 2 are shown. */
  const Radius: int := 2

  /** The volume every play request sets. */
  const PlaybackVolume: real := 0.6

  /** The album list and the parallel track list (`albumTracks`). */
  datatype Catalog = Catalog(albums: seq<Album>, tracks: seq<string>) {
    predicate Valid() {
      |albums| > 0 && |tracks| == |albums|
    }
  }

  /**
    The one audio element: its source, volume and paused flag, and how many
    times its source has been assigned (each assignment reloads the track
    from its beginning).
   */
  datatype AudioElement = AudioElement(src: string, volume: real, paused: bool, loads: nat)

  /**
    Component state: the cursor, the transition lock, the `isPlaying` flag,
    the audio handle (absent until the element is attached) and the number of
    `play()` promises that have not settled yet.
   */
  datatype Player = Player(cursor: int, locked: bool, isPlaying: bool, audio: Option<AudioElement>, pendingPlays: nat)

  /** The inbound events of the component. */
  datatype Event =
    | NextClick
    | PrevClick
    | SlotClick(offset: int)
    | DotClick(index: int)
    | TogglePlay
    | Settle
    | PlayResolved
    | PlayRejected
    | TrackEnded

  /**
    The state invariant: the cursor is a valid index, and without an audio
    handle nothing plays and no promise is outstanding. The flag may show
    playing while the element is paused: see `EndedTrackStillShowsPlaying`.
   */
  predicate Inv(cat: Catalog, s: Player) {
    && cat.Valid()
    && ValidIndex(s.cursor, |cat.albums|)
    && (s.audio.None? ==> s.pendingPlays == 0)
    && (s.isPlaying ==> s.audio.Some?)
  }

  /** The state at mount: cursor 0, unlocked, stopped, an empty unplayed element if attached. */
  function Initial(cat: Catalog, attached: bool): (s: Player)
    requires cat.Valid()
    ensures Inv(cat, s)
    ensures s.cursor == 0 && !s.locked && !s.isPlaying && s.pendingPlays == 0
    ensures s.audio.Some? <==> attached
  {
    Player(0, false, false, if attached then Some(AudioElement("", 1.0, true, 0)) else None, 0)
  }

  /** The loaded track is the one of the album under the cursor. */
  predicate Synced(cat: Catalog, s: Player)
    requires Inv(cat, s)
  {
    s.audio.Some? && s.audio.value.src == cat.tracks[s.cursor]
  }

  /**
    `playAudioForIndex`: without a handle nothing happens; otherwise the
    source becomes the requested track (assigned, and so reloaded, only when
    it differs), the volume becomes 0.6 and one more `play()` promise is
    outstanding. `isPlaying` is left to the promise.
   */
  function PlayAudioForIndex(cat: Catalog, s: Player, index: int): (r: Player)
    requires Inv(cat, s) && ValidIndex(index, |cat.tracks|)
    ensures s.audio.None? ==> r == s
    ensures s.audio.Some? ==>
      && r.audio.Some?
      && r.audio.value.src == cat.tracks[index]
      && r.audio.value.volume == PlaybackVolume
      && r.audio.value.paused == s.audio.value.paused
      && r.audio.value.loads == s.audio.value.loads + (if s.audio.value.src == cat.tracks[index] then 0 else 1)
      && r.pendingPlays == s.pendingPlays + 1
    ensures r.cursor == s.cursor && r.locked == s.locked && r.isPlaying == s.isPlaying
  {
    match s.audio
    case None => s
    case Some(a) =>
      var loaded := if a.src != cat.tracks[index] then a.(src := cat.tracks[index], loads := a.loads + 1) else a;
      s.(audio := Some(loaded.(volume := PlaybackVolume)), pendingPlays := s.pendingPlays + 1)
  }

  /** `pauseAudio`: without a handle nothing happens; otherwise the element pauses and the flag clears. */
  function PauseAudio(cat: Catalog, s: Player): (r: Player)
    requires Inv(cat, s)
    ensures s.audio.None? ==> r == s
    ensures s.audio.Some? ==>
      && !r.isPlaying
      && r.audio.Some? && r.audio.value.paused
      && r.audio.value.src == s.audio.value.src
      && r.audio.value.loads == s.audio.value.loads
      && r.pendingPlays == s.pendingPlays
    ensures r.cursor == s.cursor && r.locked == s.locked
  {
    match s.audio
    case None => s
    case Some(a) => s.(audio := Some(a.(paused := true)), isPlaying := false)
  }

  /**
    `togglePlay`: without a handle nothing happens; when playing it pauses;
    when stopped it requests the track of the album under the cursor and
    stays stopped until that request resolves.
   */
  function Toggle(cat: Catalog, s: Player): (r: Player)
    requires Inv(cat, s)
    ensures Inv(cat, r)
    ensures s.audio.None? ==> r == s
    ensures s.audio.Some? && s.isPlaying ==> !r.isPlaying && r.audio.Some? && r.audio.value.paused && r.pendingPlays == s.pendingPlays
    ensures s.audio.Some? && !s.isPlaying ==>
      && !r.isPlaying
      && Synced(cat, r)
      && r.audio.value.volume == PlaybackVolume
      && r.pendingPlays == s.pendingPlays + 1
    ensures r.cursor == s.cursor && r.locked == s.locked
  {
    if s.audio.None? then s
    else if s.isPlaying then PauseAudio(cat, s)
    else PlayAudioForIndex(cat, s, s.cursor)
  }

  /**
    `setIndexSafely`: dropped while locked. Otherwise it takes the lock and
    moves the cursor to `index` even when `index` is the current one, and,
    if playing, re-targets the audio to the new album's track. When stopped
    the audio is left alone.
   */
  function SetIndexSafely(cat: Catalog, s: Player, index: int): (r: Player)
    requires Inv(cat, s) && ValidIndex(index, |cat.albums|)
    ensures Inv(cat, r)
    ensures s.locked ==> r == s
    ensures !s.locked ==> r.locked && r.cursor == index && r.isPlaying == s.isPlaying
    ensures !s.locked && s.isPlaying ==>
      && Synced(cat, r)
      && r.audio.value.volume == PlaybackVolume
      && r.pendingPlays == s.pendingPlays + 1
    ensures !s.isPlaying ==> r.audio == s.audio && r.pendingPlays == s.pendingPlays
  {
    if s.locked then s
    else
      var moved := s.(locked := true, cursor := index);
      if s.isPlaying then PlayAudioForIndex(cat, moved, index) else moved
  }

  /** `goToNext`: an admitted step moves the cursor one place forward, wrapping after the last album. */
  function GoToNext(cat: Catalog, s: Player): (r: Player)
    requires Inv(cat, s)
    ensures Inv(cat, r)
    ensures s.locked ==> r == s
    ensures !s.locked ==> r.locked && r.cursor == (if s.cursor == |cat.albums| - 1 then 0 else s.cursor + 1)
  {
    SetIndexSafely(cat, s, Next(s.cursor, |cat.albums|))
  }

  /** `goToPrev`: an admitted step moves the cursor one place back, wrapping before the first album. */
  function GoToPrev(cat: Catalog, s: Player): (r: Player)
    requires Inv(cat, s)
    ensures Inv(cat, r)
    ensures s.locked ==> r == s
    ensures !s.locked ==> r.locked && r.cursor == (if s.cursor == 0 then |cat.albums| - 1 else s.cursor - 1)
  {
    SetIndexSafely(cat, s, Prev(s.cursor, |cat.albums|))
  }

  /**
    The click handler of a visible slot: the centre does nothing; any other
    slot steps once toward its side, however far from the centre it sits.
   */
  function ClickSlot(cat: Catalog, s: Player, offset: int): (r: Player)
    requires Inv(cat, s) && -Radius <= offset <= Radius
    ensures Inv(cat, r)
    ensures offset == 0 || s.locked ==> r == s
    ensures offset > 0 && !s.locked ==> r == GoToNext(cat, s) && r.cursor == Next(s.cursor, |cat.albums|)
    ensures offset < 0 && !s.locked ==> r == GoToPrev(cat, s) && r.cursor == Prev(s.cursor, |cat.albums|)
  {
    if offset == 0 then s
    else if offset > 0 then GoToNext(cat, s)
    else GoToPrev(cat, s)
  }

  /** The settle timer: it exists only while the lock is held, and releases it. */
  function SettleLock(s: Player): (r: Player)
    ensures !r.locked
    ensures r.(locked := s.locked) == s
  {
    if s.locked then s.(locked := false) else s
  }

  /** One outstanding `play()` promise resolves: the element plays and the flag is set. */
  function ResolvePlay(cat: Catalog, s: Player): (r: Player)
    requires Inv(cat, s)
    ensures Inv(cat, r)
    ensures s.pendingPlays == 0 ==> r == s
    ensures s.pendingPlays > 0 ==>
      && r.isPlaying
      && r.pendingPlays == s.pendingPlays - 1
      && !r.audio.value.paused
      && r.audio.value.src == s.audio.value.src
    ensures r.cursor == s.cursor && r.locked == s.locked
  {
    if s.pendingPlays == 0 then s
    else
      match s.audio
      case None => s
      case Some(a) => s.(audio := Some(a.(paused := false)), isPlaying := true, pendingPlays := s.pendingPlays - 1)
  }

  /** One outstanding `play()` promise is rejected: the flag is cleared. */
  function RejectPlay(cat: Catalog, s: Player): (r: Player)
    requires Inv(cat, s)
    ensures Inv(cat, r)
    ensures s.pendingPlays == 0 ==> r == s
    ensures s.pendingPlays > 0 ==> !r.isPlaying && r.pendingPlays == s.pendingPlays - 1
    ensures r.cursor == s.cursor && r.locked == s.locked && r.audio == s.audio
  {
    if s.pendingPlays == 0 then s
    else s.(isPlaying := false, pendingPlays := s.pendingPlays - 1)
  }

  /**
    The element plays its track to the end and pauses by itself. The element
    has no `loop` attribute and the component registers no `ended` or `pause`
    handler, so nothing else changes.
   */
  function EndTrack(cat: Catalog, s: Player): (r: Player)
    requires Inv(cat, s)
    ensures Inv(cat, r)
    ensures s.audio.Some? ==> r.audio.Some? && r.audio.value.paused && r.audio.value.src == s.audio.value.src
    ensures r.(audio := s.audio) == s
  {
    match s.audio
    case None => s
    case Some(a) => s.(audio := Some(a.(paused := true)))
  }

  /** An event the page can produce: slots exist for offsets -2 .. 2, dots for each album. */
  predicate WellFormed(cat: Catalog, e: Event) {
    match e
    case SlotClick(offset) => -Radius <= offset <= Radius
    case DotClick(index) => ValidIndex(index, |cat.albums|)
    case _ => true
  }

  /** The navigation events; the centre slot is not one. */
  predicate IsNavigation(e: Event) {
    e.NextClick? || e.PrevClick? || e.DotClick? || (e.SlotClick? && e.offset != 0)
  }

  /** The navigation events the lock admits. */
  predicate Admitted(s: Player, e: Event) {
    IsNavigation(e) && !s.locked
  }

  /**
    One event. The lock is taken exactly by admitted navigations and released
    only by the settle timer; the cursor moves only on admitted navigations;
    and the flag turns on only when an outstanding play request resolves.
   */
  function Step(cat: Catalog, s: Player, e: Event): (r: Player)
    requires Inv(cat, s) && WellFormed(cat, e)
    ensures Inv(cat, r)
    ensures e.Settle? ==> !r.locked
    ensures !e.Settle? ==> (r.locked <==> s.locked || Admitted(s, e))
    ensures r.cursor != s.cursor ==> Admitted(s, e)
    ensures IsNavigation(e) && s.locked ==> r == s
    ensures !s.isPlaying && r.isPlaying ==> e.PlayResolved? && s.pendingPlays > 0
  {
    match e
    case NextClick => GoToNext(cat, s)
    case PrevClick => GoToPrev(cat, s)
    case SlotClick(offset) => ClickSlot(cat, s, offset)
    case DotClick(index) => SetIndexSafely(cat, s, index)
    case TogglePlay => Toggle(cat, s)
    case Settle => SettleLock(s)
    case PlayResolved => ResolvePlay(cat, s)
    case PlayRejected => RejectPlay(cat, s)
    case TrackEnded => EndTrack(cat, s)
  }

  /** Every event of the sequence is one the page can produce. */
  predicate AllWellFormed(cat: Catalog, es: seq<Event>) {
    forall i :: 0 <= i < |es| ==> WellFormed(cat, es[i])
  }

  /** A run of events from `s`; the state invariant holds at its end. */
  function Run(cat: Catalog, s: Player, es: seq<Event>): (r: Player)
    requires Inv(cat, s) && AllWellFormed(cat, es)
    ensures Inv(cat, r)
    decreases |es|
  {
    if es == [] then s
    else
      assert WellFormed(cat, es[0]);
      Run(cat, Step(cat, s, es[0]), es[1..])
  }

  /** How many navigations of the run the lock admits. */
  function AdmittedCount(cat: Catalog, s: Player, es: seq<Event>): nat
    requires Inv(cat, s) && AllWellFormed(cat, es)
    decreases |es|
  {
    if es == [] then 0
    else
      assert WellFormed(cat, es[0]);
      (if Admitted(s, es[0]) then 1 else 0) + AdmittedCount(cat, Step(cat, s, es[0]), es[1..])
  }

  /** How many events of the run change the cursor. */
  function CursorMoves(cat: Catalog, s: Player, es: seq<Event>): nat
    requires Inv(cat, s) && AllWellFormed(cat, es)
    decreases |es|
  {
    if es == [] then 0
    else
      assert WellFormed(cat, es[0]);
      var t := Step(cat, s, es[0]);
      (if t.cursor != s.cursor then 1 else 0) + CursorMoves(cat, t, es[1..])
  }

  /**
    Admission control: between two settle events the lock admits at most one
    navigation, so the cursor changes at most once; from a locked state it
    admits none and the cursor stays put.
   */
  lemma {:induction false} AtMostOneMovePerSettle(cat: Catalog, s: Player, es: seq<Event>)
    requires Inv(cat, s) && AllWellFormed(cat, es)
    requires forall i :: 0 <= i < |es| ==> !es[i].Settle?
    ensures CursorMoves(cat, s, es) <= AdmittedCount(cat, s, es) <= 1
    ensures s.locked ==> AdmittedCount(cat, s, es) == 0 && Run(cat, s, es).cursor == s.cursor
    decreases |es|
  {
    if es != [] {
      assert WellFormed(cat, es[0]);
      var t := Step(cat, s, es[0]);
      assert AllWellFormed(cat, es[1..]) by {
        forall i | 0 <= i < |es[1..]| ensures WellFormed(cat, es[1..][i]) {
          assert es[1..][i] == es[i + 1];
        }
      }
      assert forall i :: 0 <= i < |es[1..]| ==> !es[1..][i].Settle? by {
        forall i | 0 <= i < |es[1..]| ensures !es[1..][i].Settle? {
          assert es[1..][i] == es[i + 1];
        }
      }
      assert !es[0].Settle?;
      AtMostOneMovePerSettle(cat, t, es[1..]);
      if Admitted(s, es[0]) {
        assert t.locked;
      }
    }
  }

  /** Two navigations with no settle between them: the second is dropped. */
  lemma SecondNavigationDropped(cat: Catalog, s: Player, e1: Event, e2: Event)
    requires Inv(cat, s) && WellFormed(cat, e1) && WellFormed(cat, e2)
    requires !s.locked && IsNavigation(e1) && IsNavigation(e2)
    ensures Step(cat, Step(cat, s, e1), e2) == Step(cat, s, e1)
    ensures Step(cat, s, e1).locked
  {
  }

  /** Next, settle, previous brings the cursor back; so does previous, settle, next. */
  lemma NextThenPrevRestores(cat: Catalog, s: Player)
    requires Inv(cat, s) && !s.locked
    ensures Step(cat, SettleLock(Step(cat, s, NextClick)), PrevClick).cursor == s.cursor
    ensures Step(cat, SettleLock(Step(cat, s, PrevClick)), NextClick).cursor == s.cursor
  {
    NextPrevInverse(s.cursor, |cat.albums|);
  }

  /**
    A dot for the album already under the cursor is not skipped: it takes
    the lock, keeps the cursor, and while playing issues a fresh play request
    for the same track without reloading it.
   */
  lemma RedundantDotAdmitted(cat: Catalog, s: Player)
    requires Inv(cat, s) && !s.locked
    ensures Step(cat, s, DotClick(s.cursor)).locked
    ensures Step(cat, s, DotClick(s.cursor)).cursor == s.cursor
    ensures s.isPlaying && Synced(cat, s) ==>
      && Step(cat, s, DotClick(s.cursor)).pendingPlays == s.pendingPlays + 1
      && Step(cat, s, DotClick(s.cursor)).audio.value.loads == s.audio.value.loads
  {
  }

  /**
    Clicking a slot two places from the centre steps one place, not onto
    that slot's album, whenever the list has at least two albums.
   */
  lemma ClickStepsNotJumps(cat: Catalog, s: Player, offset: int)
    requires Inv(cat, s) && !s.locked && |cat.albums| >= 2
    requires offset == 2 || offset == -2
    ensures ClickSlot(cat, s, offset).cursor != WrapIndex(s.cursor, offset, |cat.albums|)
  {
    var n := |cat.albums|;
    var c := s.cursor;
    if offset == 2 {
      if c + 2 < n {
        ModUnique(c + offset + n, n, 1, c + 2);
      } else {
        ModUnique(c + offset + n, n, 2, c + 2 - n);
      }
    } else {
      if c - 2 >= 0 {
        ModUnique(c + offset + n, n, 1, c - 2);
      } else {
        ModUnique(c + offset + n, n, 0, c - 2 + n);
      }
    }
  }

  /**
    Once the loaded track matches the cursor while playing, every event that
    leaves the component playing keeps it matched.
   */
  lemma PlayingStaysSynced(cat: Catalog, s: Player, e: Event)
    requires Inv(cat, s) && WellFormed(cat, e)
    requires s.isPlaying && Synced(cat, s)
    ensures Step(cat, s, e).isPlaying ==> Synced(cat, Step(cat, s, e))
  {
  }

  /**
    A play request that is rejected leaves the component stopped, with the
    cursor and lock as they were.
   */
  lemma RejectedPlayLeavesStopped(cat: Catalog, s: Player)
    requires Inv(cat, s) && s.audio.Some? && !s.isPlaying && s.pendingPlays == 0
    ensures Run(cat, s, [TogglePlay, PlayRejected]).isPlaying == false
    ensures Run(cat, s, [TogglePlay, PlayRejected]).pendingPlays == 0
    ensures Run(cat, s, [TogglePlay, PlayRejected]).cursor == s.cursor
  {
    var t := Step(cat, s, TogglePlay);
    assert Run(cat, s, [TogglePlay, PlayRejected]) == Run(cat, t, [PlayRejected]);
    assert Run(cat, t, [PlayRejected]) == Run(cat, Step(cat, t, PlayRejected), []);
  }

  /**
    The loaded track can differ from the album under the cursor while
    playing: navigating after a play request but before it resolves finds
    `isPlaying` still false, so the audio is not re-targeted, and the late
    resolution then plays the previous album's track.
   */
  lemma PlayingCanDesync()
    ensures
      var cat := Catalog([Album(1, "A", "2012", "a.jpg"), Album(2, "B", "2014", "b.jpg")], ["a.mp3", "b.mp3"]);
      var r := Run(cat, Initial(cat, true), [TogglePlay, NextClick, PlayResolved]);
      r.isPlaying && r.cursor == 1 && r.audio.value.src == "a.mp3" && !Synced(cat, r)
  {
    var cat := Catalog([Album(1, "A", "2012", "a.jpg"), Album(2, "B", "2014", "b.jpg")], ["a.mp3", "b.mp3"]);
    var s0 := Initial(cat, true);
    var es := [TogglePlay, NextClick, PlayResolved];
    var s1 := Step(cat, s0, TogglePlay);
    var s2 := Step(cat, s1, NextClick);
    var s3 := Step(cat, s2, PlayResolved);
    assert es[1..] == [NextClick, PlayResolved];
    assert es[1..][1..] == [PlayResolved];
    assert Run(cat, s0, es) == Run(cat, s1, [NextClick, PlayResolved]);
    assert Run(cat, s1, [NextClick, PlayResolved]) == Run(cat, s2, [PlayResolved]);
    assert Run(cat, s2, [PlayResolved]) == Run(cat, s3, []);
  }

  /**
    When a playing track ends, the flag still shows playing although the
    element is paused; the next toggle only clears the flag, and starts
    nothing.
   */
  lemma EndedTrackStillShowsPlaying(cat: Catalog, s: Player)
    requires Inv(cat, s) && s.isPlaying
    ensures Step(cat, s, TrackEnded).isPlaying
    ensures Step(cat, s, TrackEnded).audio.value.paused
    ensures !Step(cat, Step(cat, s, TrackEnded), TogglePlay).isPlaying
    ensures Step(cat, Step(cat, s, TrackEnded), TogglePlay).pendingPlays == s.pendingPlays
  {
  }

  /** The visual tier of a slot. */
  datatype Tier = Center | Adjacent | Far

  /** `isCenter` / `isAdjacent` of a slot at `offset`. */
  function TierOf(offset: int): (t: Tier)
    ensures t == Center <==> offset == 0
    ensures t == Adjacent <==> offset == 1 || offset == -1
    ensures t == Far <==> offset <= -2 || 2 <= offset
  {
    if offset == 0 then Center
    else if Distance(offset) == 1 then Adjacent
    else Far
  }

  /** The scale of a tier: largest for the centre, and always positive. */
  function TierScale(t: Tier): (r: real)
    ensures 0.6 <= r <= 1.2
    ensures r == 1.2 <==> t == Center
    ensures r == 0.6 <==> t == Far
  {
    match t
    case Center => 1.2
    case Adjacent => 0.85
    case Far => 0.6
  }

  /** The opacity of a tier: fully opaque only at the centre, never invisible. */
  function TierOpacity(t: Tier): (r: real)
    ensures 0.4 <= r <= 1.0
    ensures r == 1.0 <==> t == Center
    ensures r == 0.4 <==> t == Far
  {
    match t
    case Center => 1.0
    case Adjacent => 0.8
    case Far => 0.4
  }

  /**
    The tier weights fall strictly from centre to adjacent to far, and so
    never grow as a slot moves away from the centre.
   */
  lemma TierWeightsOrdered(o1: int, o2: int)
    ensures TierScale(Center) > TierScale(Adjacent) > TierScale(Far) > 0.0
    ensures TierOpacity(Center) > TierOpacity(Adjacent) > TierOpacity(Far) > 0.0
    ensures Distance(o1) <= Distance(o2) ==>
      TierScale(TierOf(o2)) <= TierScale(TierOf(o1)) && TierOpacity(TierOf(o2)) <= TierOpacity(TierOf(o1))
  {
  }

  /**
    The five visible slots: offsets -2 .. 2 ascending, the album under the
    cursor in the middle, the tiers far, adjacent, centre, adjacent, far.
   */
  function VisibleItems(cat: Catalog, s: Player): (slots: seq<Slot>)
    requires Inv(cat, s)
    ensures |slots| == 2 * Radius + 1
    ensures forall k :: 0 <= k < |slots| ==> slots[k].offset == k - Radius
    ensures slots[Radius].album == cat.albums[s.cursor]
    ensures forall k :: 0 <= k < |slots| ==>
      slots[k].album == cat.albums[WrapIndex(s.cursor, slots[k].offset, |cat.albums|)]
    ensures forall k :: 0 <= k < |slots| ==> (TierOf(slots[k].offset) == Center <==> k == Radius)
    ensures forall k :: 0 <= k < |slots| ==> (TierOf(slots[k].offset) == Adjacent <==> k == 1 || k == 3)
  {
    AudioWindowTotal(cat.albums, s.cursor);
    var slots := Project(cat.albums, s.cursor, Radius).value;
    assert forall k :: 0 <= k < |slots| ==> SlotFor(cat.albums, s.cursor, -Radius + k, slots[k]);
    slots
  }
}
