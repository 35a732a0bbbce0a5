/**
  The autoplay cover flow (`LanaCoverFlow`): the same circular cursor and
  transition lock (released by a 300-unit settle timer), a `goToIndex` that
  ignores the current index, a 4000-unit autoplay interval that advances only
  when unlocked, a seven-slot window, and distance-based scale and opacity.

  The timers are events: `Settle` is the settle timer firing, `Tick` the
  autoplay interval firing. Every handler is one atomic transition.
 */
module AutoplayCoverFlow {
  import opened CircularCursor
  import opened Window

  /** Offsets -3 .. 3 are shown. */
  const Radius: int := 3

  /** Component state: the cursor and the transition lock. */
  datatype Carousel = Carousel(cursor: int, locked: bool)

  /** The inbound events of the component. */
  datatype Event =
    | NextClick
    | PrevClick
    | DotClick(index: int)
    | SlotClick(offset: int)
    | Tick
    | Settle

  /** The album list is non-empty and the cursor is a valid index. */
  predicate Inv(albums: seq<Album>, s: Carousel) {
    CursorIn(albums, s.cursor)
  }

  /** The state at mount: cursor 0, unlocked. */
  function Initial(albums: seq<Album>): (s: Carousel)
    requires |albums| > 0
    ensures Inv(albums, s) && s.cursor == 0 && !s.locked
  {
    Carousel(0, false)
  }

  /** `goToNext`: dropped while locked; otherwise takes the lock and steps forward, wrapping. */
  function GoToNext(albums: seq<Album>, s: Carousel): (r: Carousel)
    requires Inv(albums, s)
    ensures Inv(albums, r)
    ensures s.locked ==> r == s
    ensures !s.locked ==> r.locked && r.cursor == (if s.cursor == |albums| - 1 then 0 else s.cursor + 1)
  {
    if s.locked then s
    else Carousel(Next(s.cursor, |albums|), true)
  }

  /** `goToPrev`: dropped while locked; otherwise takes the lock and steps back, wrapping. */
  function GoToPrev(albums: seq<Album>, s: Carousel): (r: Carousel)
    requires Inv(albums, s)
    ensures Inv(albums, r)
    ensures s.locked ==> r == s
    ensures !s.locked ==> r.locked && r.cursor == (if s.cursor == 0 then |albums| - 1 else s.cursor - 1)
  {
    if s.locked then s
    else Carousel(Prev(s.cursor, |albums|), true)
  }

  /**
    `goToIndex`: dropped while locked and when `index` is already the
    cursor; otherwise takes the lock and jumps to `index`.
   */
  function GoToIndex(albums: seq<Album>, s: Carousel, index: int): (r: Carousel)
    requires Inv(albums, s) && ValidIndex(index, |albums|)
    ensures Inv(albums, r)
    ensures s.locked || index == s.cursor ==> r == s
    ensures !s.locked && index != s.cursor ==> r.locked && r.cursor == index
    ensures r.cursor == index || r == s
  {
    if s.locked || index == s.cursor then s
    else Carousel(index, true)
  }

  /** A slot at `offset` is on the page: within the window, and the window itself could be built. */
  predicate SlotShown(albums: seq<Album>, s: Carousel, offset: int)
    requires Inv(albums, s)
  {
    -Radius <= offset <= Radius && Project(albums, s.cursor, Radius).Ok?
  }

  /**
    The click handler of a visible slot: the centre does nothing; any other
    slot jumps straight to its own album's index.
   */
  function ClickSlot(albums: seq<Album>, s: Carousel, offset: int): (r: Carousel)
    requires Inv(albums, s) && SlotShown(albums, s, offset)
    ensures Inv(albums, r)
    ensures offset == 0 || s.locked ==> r == s
    ensures offset != 0 && !s.locked ==>
      && r.cursor == WrapIndex(s.cursor, offset, |albums|)
      && albums[r.cursor] == Project(albums, s.cursor, Radius).value[offset + Radius].album
      && (r.locked <==> r.cursor != s.cursor)
  {
    if offset == 0 then s
    else
      var slots := Project(albums, s.cursor, Radius).value;
      assert SlotFor(albums, s.cursor, -Radius + (offset + Radius), slots[offset + Radius]);
      GoToIndex(albums, s, WrapIndex(s.cursor, offset, |albums|))
  }

  /** The autoplay interval: it steps forward when unlocked and skips the tick otherwise. */
  function AutoplayTick(albums: seq<Album>, s: Carousel): (r: Carousel)
    requires Inv(albums, s)
    ensures Inv(albums, r)
    ensures s.locked ==> r == s
    ensures !s.locked ==> r.locked && r.cursor == Next(s.cursor, |albums|)
  {
    if !s.locked then GoToNext(albums, s) else s
  }

  /** The settle timer: it exists only while the lock is held, and releases it. */
  function SettleLock(s: Carousel): (r: Carousel)
    ensures !r.locked && r.cursor == s.cursor
  {
    if s.locked then s.(locked := false) else s
  }

  /**
    The events admitted in state `s`: dots exist for each album, and a slot
    click needs its slot to be on the page. This over-approximates the page:
    in the one state whose window cannot be built (two albums, cursor 0) the
    component throws while rendering and produces no events at all, yet
    buttons, dots and ticks are still admitted here.
   */
  predicate Enabled(albums: seq<Album>, s: Carousel, e: Event)
    requires Inv(albums, s)
  {
    match e
    case DotClick(index) => ValidIndex(index, |albums|)
    case SlotClick(offset) => SlotShown(albums, s, offset)
    case _ => true
  }

  /** The events the lock admits: they take the lock. */
  predicate Admitted(albums: seq<Album>, s: Carousel, e: Event)
    requires Inv(albums, s) && Enabled(albums, s, e)
  {
    && !s.locked
    && match e
       case NextClick => true
       case PrevClick => true
       case Tick => true
       case DotClick(index) => index != s.cursor
       case SlotClick(offset) => offset != 0 && WrapIndex(s.cursor, offset, |albums|) != s.cursor
       case Settle => false
  }

  /**
    One event. The lock is taken exactly by admitted events and released
    only by the settle timer, and the cursor moves only on admitted events.
   */
  function Step(albums: seq<Album>, s: Carousel, e: Event): (r: Carousel)
    requires Inv(albums, s) && Enabled(albums, s, e)
    ensures Inv(albums, r)
    ensures e.Settle? ==> !r.locked
    ensures !e.Settle? ==> (r.locked <==> s.locked || Admitted(albums, s, e))
    ensures r.cursor != s.cursor ==> Admitted(albums, s, e)
    ensures s.locked && !e.Settle? ==> r == s
  {
    match e
    case NextClick => GoToNext(albums, s)
    case PrevClick => GoToPrev(albums, s)
    case DotClick(index) => GoToIndex(albums, s, index)
    case SlotClick(offset) => ClickSlot(albums, s, offset)
    case Tick => AutoplayTick(albums, s)
    case Settle => SettleLock(s)
  }

  /** Every event of the run is one the page can produce at the moment it happens. */
  predicate Feasible(albums: seq<Album>, s: Carousel, es: seq<Event>)
    requires Inv(albums, s)
    decreases |es|
  {
    es == [] || (Enabled(albums, s, es[0]) && Feasible(albums, Step(albums, s, es[0]), es[1..]))
  }

  /** A run of events from `s`; the cursor stays a valid index throughout. */
  function Run(albums: seq<Album>, s: Carousel, es: seq<Event>): (r: Carousel)
    requires Inv(albums, s) && Feasible(albums, s, es)
    ensures Inv(albums, r)
    decreases |es|
  {
    if es == [] then s
    else Run(albums, Step(albums, s, es[0]), es[1..])
  }

  /** How many events of the run the lock admits. */
  function AdmittedCount(albums: seq<Album>, s: Carousel, es: seq<Event>): nat
    requires Inv(albums, s) && Feasible(albums, s, es)
    decreases |es|
  {
    if es == [] then 0
    else (if Admitted(albums, s, es[0]) then 1 else 0) + AdmittedCount(albums, Step(albums, s, es[0]), es[1..])
  }

  /** How many events of the run change the cursor. */
  function CursorMoves(albums: seq<Album>, s: Carousel, es: seq<Event>): nat
    requires Inv(albums, s) && Feasible(albums, s, es)
    decreases |es|
  {
    if es == [] then 0
    else
      var t := Step(albums, s, es[0]);
      (if t.cursor != s.cursor then 1 else 0) + CursorMoves(albums, t, es[1..])
  }

  /**
    Admission control: between two settle events at most one event is
    admitted, so the cursor changes at most once; from a locked state none is
    admitted and the cursor stays put.
   */
  lemma {:induction false} AtMostOneMovePerSettle(albums: seq<Album>, s: Carousel, es: seq<Event>)
    requires Inv(albums, s) && Feasible(albums, s, es)
    requires forall i :: 0 <= i < |es| ==> !es[i].Settle?
    ensures CursorMoves(albums, s, es) <= AdmittedCount(albums, s, es) <= 1
    ensures s.locked ==> AdmittedCount(albums, s, es) == 0 && Run(albums, s, es).cursor == s.cursor
    decreases |es|
  {
    if es != [] {
      var t := Step(albums, s, es[0]);
      assert forall i :: 0 <= i < |es[1..]| ==> !es[1..][i].Settle? by {
        forall i | 0 <= i < |es[1..]| ensures !es[1..][i].Settle? {
          assert es[1..][i] == es[i + 1];
        }
      }
      assert !es[0].Settle?;
      AtMostOneMovePerSettle(albums, t, es[1..]);
      if Admitted(albums, s, es[0]) {
        assert t.locked;
      }
    }
  }

  /** A tick while unlocked advances exactly one place; a tick while locked is skipped. */
  lemma TickAdvancesOnce(albums: seq<Album>, s: Carousel)
    requires Inv(albums, s)
    ensures !s.locked ==> Step(albums, s, Tick).cursor == Next(s.cursor, |albums|)
    ensures s.locked ==> Step(albums, s, Tick) == s
    ensures s.locked ==> Step(albums, SettleLock(s), Tick).cursor == Next(s.cursor, |albums|)
  {
  }

  /** Next, settle, previous brings the cursor back; so does previous, settle, next. */
  lemma NextThenPrevRestores(albums: seq<Album>, s: Carousel)
    requires Inv(albums, s) && !s.locked
    ensures Step(albums, SettleLock(Step(albums, s, NextClick)), PrevClick).cursor == s.cursor
    ensures Step(albums, SettleLock(Step(albums, s, PrevClick)), NextClick).cursor == s.cursor
  {
    NextPrevInverse(s.cursor, |albums|);
  }

  /**
    An unlocked click on a non-centre slot puts the clicked slot's album in
    the centre of the next window, whenever that window can be built.
   */
  lemma ClickCentresClickedAlbum(albums: seq<Album>, s: Carousel, offset: int)
    requires Inv(albums, s) && SlotShown(albums, s, offset)
    requires !s.locked && offset != 0
    ensures
      var r := ClickSlot(albums, s, offset);
      var before := Project(albums, s.cursor, Radius).value;
      Project(albums, r.cursor, Radius).Ok? ==>
        Project(albums, r.cursor, Radius).value[Radius].album == before[offset + Radius].album
  {
  }

  /** With at least seven albums every non-centre slot click from an unlocked state is admitted. */
  lemma WideListClicksAdmitted(albums: seq<Album>, s: Carousel, offset: int)
    requires Inv(albums, s) && |albums| >= 2 * Radius + 1 && !s.locked
    requires -Radius <= offset <= Radius && offset != 0
    ensures SlotShown(albums, s, offset)
    ensures Admitted(albums, s, SlotClick(offset))
  {
    ShownWithinCount(albums, s.cursor, Radius);
    assert Project(albums, s.cursor, Radius).Ok?;
    WrapIndexInjective(s.cursor, offset, 0, |albums|);
    WrapIndexZero(s.cursor, |albums|);
  }

  /**
    The seven visible slots: offsets -3 .. 3 ascending with the album under
    the cursor in the middle, for any list that can build the window. With at
    least seven distinct albums, the seven slots show seven distinct albums.
   */
  lemma SevenSlotWindow(albums: seq<Album>, s: Carousel)
    requires Inv(albums, s) && Project(albums, s.cursor, Radius).Ok?
    ensures
      var slots := Project(albums, s.cursor, Radius).value;
      && |slots| == 7
      && (forall k :: 0 <= k < |slots| ==> slots[k].offset == k - Radius)
      && slots[Radius].album == albums[s.cursor]
      && (forall j, k :: 0 <= j < k < |slots| ==> slots[j].key != slots[k].key)
    ensures |albums| >= 7 && (forall a, b :: 0 <= a < b < |albums| ==> albums[a] != albums[b]) ==>
      var slots := Project(albums, s.cursor, Radius).value;
      forall j, k :: 0 <= j < k < |slots| ==> slots[j].album != slots[k].album
  {
    var slots := Project(albums, s.cursor, Radius).value;
    assert forall k :: 0 <= k < |slots| ==> SlotFor(albums, s.cursor, -Radius + k, slots[k]);
    if |albums| >= 7 {
      WideWindowDistinct(albums, s.cursor, Radius);
    }
  }

  /** `isCenter ? 1 : max(0.5, 1 - |offset| * 0.15)`. */
  function SlotScale(offset: int): (r: real)
    ensures offset == 0 ==> r == 1.0
    ensures 0.5 <= r <= 1.0
    ensures offset != 0 ==> r <= 0.85
  {
    if offset == 0 then 1.0 else Max(0.5, 1.0 - Distance(offset) as real * 0.15)
  }

  /** `max(0.2, 1 - |offset| * 0.25)`. */
  function SlotOpacity(offset: int): (r: real)
    ensures offset == 0 ==> r == 1.0
    ensures 0.2 <= r <= 1.0
  {
    Max(0.2, 1.0 - Distance(offset) as real * 0.25)
  }

  /** `Math.max` on reals. */
  function Max(a: real, b: real): (m: real)
    ensures m >= a && m >= b && (m == a || m == b)
  {
    if a >= b then a else b
  }

  /** Scale and opacity never grow as a slot moves away from the centre. */
  lemma WeightsNonIncreasing(o1: int, o2: int)
    requires Distance(o1) <= Distance(o2)
    ensures SlotScale(o2) <= SlotScale(o1)
    ensures SlotOpacity(o2) <= SlotOpacity(o1)
  {
  }

  /**
    Inside the seven-slot window neither floor is reached: scale and opacity
    fall strictly with each step away from the centre.
   */
  lemma WindowWeightsStrict(o1: int, o2: int)
    requires -Radius <= o1 <= Radius && -Radius <= o2 <= Radius
    requires Distance(o1) < Distance(o2)
    ensures SlotScale(o2) < SlotScale(o1)
    ensures SlotOpacity(o2) < SlotOpacity(o1)
    ensures o2 != 0 ==> SlotScale(o2) == 1.0 - Distance(o2) as real * 0.15
    ensures SlotOpacity(o2) == 1.0 - Distance(o2) as real * 0.25
  {
  }
}
