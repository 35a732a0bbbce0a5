/**
  The window projection (`getVisibleItems`) shared by both cover-flow variants:
  for offsets `-radius .. radius`, in ascending order, it emits the album at
  `(currentIndex + offset + length) % length` together with its offset and a
  render key. The audio variant uses radius 2, the autoplay variant radius 3.
 */
module Window {
  import opened Wrappers
  import opened CircularCursor

  /** One album record of the fixed list. */
  datatype Album = Album(id: int, title: string, year: string, cover: string)

  /** The render key `${id}-${currentIndex}-${offset}`, kept as its three parts. */
  datatype SlotKey = SlotKey(albumId: int, cursor: int, offset: int)

  /** One visible slot: the album spread out, its signed offset and its key. */
  datatype Slot = Slot(album: Album, offset: int, key: SlotKey)

  /**
    The loop reads `albums[index].id` with a negative JavaScript index, which
    is `undefined`; the projection stops with the offset where that happened.
   */
  datatype ProjectError = MissingAlbum(offset: int)

  /** `Math.abs(offset)`: how far a slot sits from the centre. */
  function Distance(offset: int): (d: nat)
    ensures d == offset || d == -offset
  {
    if offset < 0 then -offset else offset
  }

  /** The album list is non-empty and the cursor points into it. */
  predicate CursorIn(albums: seq<Album>, cursor: int) {
    |albums| > 0 && ValidIndex(cursor, |albums|)
  }

  /** The item at `offset` exists: the JavaScript remainder is not negative. */
  predicate Shown(albums: seq<Album>, cursor: int, offset: int)
    requires |albums| > 0
  {
    WrapIndex(cursor, offset, |albums|) >= 0
  }

  /** `slot` is what the loop pushes for `offset`: the album at the wrapped index, the offset and the key. */
  predicate SlotFor(albums: seq<Album>, cursor: int, offset: int, slot: Slot)
    requires |albums| > 0
  {
    var index := WrapIndex(cursor, offset, |albums|);
    && 0 <= index < |albums|
    && slot.offset == offset
    && slot.album == albums[index]
    && slot.key == SlotKey(slot.album.id, cursor, offset)
  }

  /** `slots[k]` is the slot for offset `lo + k`, for every position `k`. */
  predicate SlotsFrom(albums: seq<Album>, cursor: int, lo: int, slots: seq<Slot>)
    requires |albums| > 0
  {
    forall k :: 0 <= k < |slots| ==> SlotFor(albums, cursor, lo + k, slots[k])
  }

  /** The `for` loop of `getVisibleItems`, run over the offsets `lo .. hi`. */
  function Collect(albums: seq<Album>, cursor: int, lo: int, hi: int): (r: Result<seq<Slot>, ProjectError>)
    requires CursorIn(albums, cursor)
    decreases hi - lo
    ensures r.Ok? <==> forall o :: lo <= o <= hi ==> Shown(albums, cursor, o)
    ensures r.Err? ==>
      && lo <= r.error.offset <= hi
      && !Shown(albums, cursor, r.error.offset)
      && forall o :: lo <= o < r.error.offset ==> Shown(albums, cursor, o)
    ensures r.Ok? ==> |r.value| == (if lo <= hi then hi - lo + 1 else 0)
    ensures r.Ok? ==> SlotsFrom(albums, cursor, lo, r.value)
  {
    if lo > hi then Ok([])
    else
      var index := WrapIndex(cursor, lo, |albums|);
      if index < 0 then
        assert !Shown(albums, cursor, lo);
        Err(MissingAlbum(lo))
      else
        var slot := Slot(albums[index], lo, SlotKey(albums[index].id, cursor, lo));
        match Collect(albums, cursor, lo + 1, hi)
        case Ok(rest) =>
          ConsSlots(albums, cursor, lo, slot, rest);
          Ok([slot] + rest)
        case Err(e) => Err(e)
  }

  /** Putting the slot for `lo` in front of the slots from `lo + 1` gives the slots from `lo`. */
  lemma ConsSlots(albums: seq<Album>, cursor: int, lo: int, slot: Slot, rest: seq<Slot>)
    requires |albums| > 0
    requires SlotFor(albums, cursor, lo, slot)
    requires SlotsFrom(albums, cursor, lo + 1, rest)
    ensures SlotsFrom(albums, cursor, lo, [slot] + rest)
  {
    var all := [slot] + rest;
    forall k | 0 <= k < |all|
      ensures SlotFor(albums, cursor, lo + k, all[k])
    {
      if k > 0 {
        assert all[k] == rest[k - 1];
        assert SlotFor(albums, cursor, (lo + 1) + (k - 1), rest[k - 1]);
      }
    }
  }

  /**
    `getVisibleItems` with window radius `radius`: exactly `2 * radius + 1`
    slots with offsets `-radius .. radius` ascending, the centre slot holding
    the album under the cursor, and pairwise distinct keys.
   */
  function Project(albums: seq<Album>, cursor: int, radius: int): (r: Result<seq<Slot>, ProjectError>)
    requires CursorIn(albums, cursor) && radius >= 0
    ensures |albums| >= radius ==> r.Ok?
    ensures r.Ok? <==> forall o :: -radius <= o <= radius ==> Shown(albums, cursor, o)
    ensures r.Err? ==> -radius <= r.error.offset <= radius && !Shown(albums, cursor, r.error.offset)
    ensures r.Ok? ==> |r.value| == 2 * radius + 1
    ensures r.Ok? ==> SlotsFrom(albums, cursor, -radius, r.value)
    ensures r.Ok? ==> r.value[radius].offset == 0 && r.value[radius].album == albums[cursor]
    ensures r.Ok? ==> forall j, k :: 0 <= j < k < |r.value| ==> r.value[j].key != r.value[k].key
  {
    ShownWithinCount(albums, cursor, radius);
    var r := Collect(albums, cursor, -radius, radius);
    if r.Ok? then
      CentreSlot(albums, cursor, radius, r.value);
      KeysDistinct(albums, cursor, -radius, r.value);
      r
    else
      r
  }

  /** In the slots from `-radius`, position `radius` is offset 0 and holds the album under the cursor. */
  lemma CentreSlot(albums: seq<Album>, cursor: int, radius: int, slots: seq<Slot>)
    requires CursorIn(albums, cursor) && 0 <= radius < |slots|
    requires SlotsFrom(albums, cursor, -radius, slots)
    ensures slots[radius].offset == 0 && slots[radius].album == albums[cursor]
  {
    assert SlotFor(albums, cursor, -radius + radius, slots[radius]);
    WrapIndexInRange(cursor, 0, |albums|);
  }

  /** Slots for consecutive offsets carry pairwise distinct keys, since their offsets differ. */
  lemma KeysDistinct(albums: seq<Album>, cursor: int, lo: int, slots: seq<Slot>)
    requires |albums| > 0
    requires SlotsFrom(albums, cursor, lo, slots)
    ensures forall j, k :: 0 <= j < k < |slots| ==> slots[j].key != slots[k].key
  {
    forall j, k | 0 <= j < k < |slots|
      ensures slots[j].key != slots[k].key
    {
      assert SlotFor(albums, cursor, lo + j, slots[j]);
      assert SlotFor(albums, cursor, lo + k, slots[k]);
    }
  }

  /** Every offset of a window no wider on each side than the list is long is shown. */
  lemma ShownWithinCount(albums: seq<Album>, cursor: int, radius: int)
    requires CursorIn(albums, cursor) && radius >= 0
    ensures |albums| >= radius ==> forall o :: -radius <= o <= radius ==> Shown(albums, cursor, o)
  {
    if |albums| >= radius {
      forall o | -radius <= o <= radius
        ensures Shown(albums, cursor, o)
      {
        WrapIndexInRange(cursor, o, |albums|);
      }
    }
  }

  /** The radius-2 window of the audio variant exists for every non-empty album list. */
  lemma AudioWindowTotal(albums: seq<Album>, cursor: int)
    requires CursorIn(albums, cursor)
    ensures Project(albums, cursor, 2).Ok?
  {
    if |albums| == 1 {
      forall o | -2 <= o <= 2
        ensures Shown(albums, cursor, o)
      {
        assert WrapIndex(cursor, o, 1) == 0;
      }
    }
  }

  /**
    The radius-3 window of the autoplay variant fails for exactly one
    configuration: two albums with the cursor on the first one, where offset
    -3 asks for `albums[-1]`.
   */
  lemma AutoplayWindowFailure(albums: seq<Album>, cursor: int)
    requires CursorIn(albums, cursor)
    ensures Project(albums, cursor, 3).Err? <==> |albums| == 2 && cursor == 0
    ensures |albums| == 2 && cursor == 0 ==> Project(albums, cursor, 3).error.offset == -3
  {
    var n := |albums|;
    if n == 1 {
      forall o | -3 <= o <= 3
        ensures Shown(albums, cursor, o)
      {
        assert WrapIndex(cursor, o, 1) == 0;
      }
    } else if n == 2 {
      if cursor == 0 {
        assert !Shown(albums, cursor, -3);
      } else {
        forall o | -3 <= o <= 3
          ensures Shown(albums, cursor, o)
        {
          assert cursor + o + n >= 0;
        }
      }
    }
  }

  /**
    When the list holds at least `2 * radius + 1` albums, the slots show
    pairwise distinct positions of the list, so pairwise distinct albums
    whenever the list has no repeated album.
   */
  lemma WideWindowDistinct(albums: seq<Album>, cursor: int, radius: int)
    requires CursorIn(albums, cursor) && radius >= 0
    requires |albums| >= 2 * radius + 1
    ensures Project(albums, cursor, radius).Ok?
    ensures forall o1, o2 :: -radius <= o1 < o2 <= radius ==>
      WrapIndex(cursor, o1, |albums|) != WrapIndex(cursor, o2, |albums|)
    ensures (forall a, b :: 0 <= a < b < |albums| ==> albums[a] != albums[b]) ==>
      var slots := Project(albums, cursor, radius).value;
      forall j, k :: 0 <= j < k < |slots| ==> slots[j].album != slots[k].album
  {
    var n := |albums|;
    forall o1, o2 | -radius <= o1 < o2 <= radius
      ensures WrapIndex(cursor, o1, n) != WrapIndex(cursor, o2, n)
    {
      WrapIndexInjective(cursor, o1, o2, n);
    }
    var slots := Project(albums, cursor, radius).value;
    if forall a, b :: 0 <= a < b < n ==> albums[a] != albums[b] {
      forall j, k | 0 <= j < k < |slots|
        ensures slots[j].album != slots[k].album
      {
        assert SlotFor(albums, cursor, -radius + j, slots[j]);
        assert SlotFor(albums, cursor, -radius + k, slots[k]);
        var a, b := WrapIndex(cursor, j - radius, n), WrapIndex(cursor, k - radius, n);
        assert a != b;
        if a < b {
          assert albums[a] != albums[b];
        } else {
          assert albums[b] != albums[a];
        }
      }
    }
  }
}
