/** The TPAG section: a table of texture-page entries, each a sprite's placement
    on one texture sheet, made of little-endian `u16` values. */
module TpagSection {
  import opened BoundedInts
  import opened Wrappers
  import opened Nom
  import opened TrackSlice
  import opened ByteParsers
  import opened IndirectTable

  /** `Point16`: a pair of `u16`. */
  datatype Point16 = Point16(x: uint16, y: uint16)

  /** `Rect16`: a pair of points. */
  datatype Rect16 = Rect16(first: Point16, second: Point16)

  /** `TpagEntry`. */
  datatype TpagEntry = TpagEntry(spriteBounds: Rect16, unk2: Rect16, size: Point16, textureIndex: uint16)

  /** `Tpag`: the texture pages and `locations`, keyed by the pointers themselves. */
  type Tpag = Table<TpagEntry>

  /** Bytes in one `TpagEntry`. */
  const ENTRY_SIZE: nat := 22

  /** The point made of the `k`-th and next `u16` of the view. */
  function PointAt(v: PosSlice, k: nat): Point16
    requires 2 * k + 4 <= v.Len()
  {
    Point16(HalfWordAt(v, k), HalfWordAt(v, k + 1))
  }

  /** The rectangle made of the four `u16` from the `k`-th on. */
  function RectAt(v: PosSlice, k: nat): Rect16
    requires 2 * k + 8 <= v.Len()
  {
    Rect16(PointAt(v, k), PointAt(v, k + 2))
  }

  /** `take_point16`: two `le_u16`, 4 bytes. */
  function TakePoint16(v: PosSlice): (r: Parsed<Point16>)
    ensures r.Done? <==> v.Len() >= 4
    ensures r.Done? ==> r.value == PointAt(v, 0) && r.rest == v.Offset(4)
    ensures !r.Done? ==> r == Error(v.Offset(WholeHalfWords(v.Len())), Eof)
  {
    var hs :- CountU16(v, 2);
    var (rest, h) := hs;
    Done(rest, Point16(h[0], h[1]))
  }

  /** A point read `q` half-words into the view. */
  lemma PointAfter(v: PosSlice, q: nat)
    requires 2 * q <= v.Len()
    ensures
      var r := TakePoint16(v.Offset(2 * q));
      && (r.Done? <==> v.Len() >= 2 * q + 4)
      && (r.Done? ==> r.value == PointAt(v, q) && r.rest == v.Offset(2 * q + 4))
      && (!r.Done? ==> r == Error(v.Offset(WholeHalfWords(v.Len())), Eof))
  {
    var r := TakePoint16(v.Offset(2 * q));
    if r.Done? {
      HalfWordAtOffset(v, q, 0);
      HalfWordAtOffset(v, q, 1);
    } else {
      WholeHalfWordsSkip(v.Len(), q);
    }
  }

  /** `take_rect16`: two points, 8 bytes. */
  function TakeRect16(v: PosSlice): (r: Parsed<Rect16>)
    ensures r.Done? <==> v.Len() >= 8
    ensures r.Done? ==> r.value == RectAt(v, 0) && r.rest == v.Offset(8)
    ensures !r.Done? ==> r == Error(v.Offset(WholeHalfWords(v.Len())), Eof)
  {
    var a :- TakePoint16(v);
    var (afterFirst, first) := a;
    PointAfter(v, 2);
    var b :- TakePoint16(afterFirst);
    var (afterSecond, second) := b;
    Done(afterSecond, Rect16(first, second))
  }

  /** A rectangle read `q` half-words into the view. */
  lemma RectAfter(v: PosSlice, q: nat)
    requires 2 * q <= v.Len()
    ensures
      var r := TakeRect16(v.Offset(2 * q));
      && (r.Done? <==> v.Len() >= 2 * q + 8)
      && (r.Done? ==> r.value == RectAt(v, q) && r.rest == v.Offset(2 * q + 8))
      && (!r.Done? ==> r == Error(v.Offset(WholeHalfWords(v.Len())), Eof))
  {
    var r := TakeRect16(v.Offset(2 * q));
    if r.Done? {
      HalfWordAtOffset(v, q, 0);
      HalfWordAtOffset(v, q, 1);
      HalfWordAtOffset(v, q, 2);
      HalfWordAtOffset(v, q, 3);
    } else {
      WholeHalfWordsSkip(v.Len(), q);
    }
  }

  /** `TpagEntry::take`: `spriteBounds`, `unk2`, `size`, `textureIndex`, in that
      order, 22 bytes; a short record fails at its last whole `u16`. */
  function TakeEntry(v: PosSlice): (r: Parsed<TpagEntry>)
    ensures r.Done? <==> v.Len() >= ENTRY_SIZE
    ensures r.Done? ==>
      && r.rest == v.Offset(ENTRY_SIZE)
      && r.value == TpagEntry(RectAt(v, 0), RectAt(v, 4), PointAt(v, 8), HalfWordAt(v, 10))
    ensures !r.Done? ==> r == Error(v.Offset(WholeHalfWords(v.Len())), Eof)
  {
    var a :- TakeRect16(v);
    var (afterBounds, spriteBounds) := a;
    RectAfter(v, 4);
    var b :- TakeRect16(afterBounds);
    var (afterUnk2, unk2) := b;
    PointAfter(v, 8);
    var c :- TakePoint16(afterUnk2);
    var (afterSize, size) := c;
    CountU16Then(v, 10, 1);
    var d :- LeU16(afterSize);
    var (rest, textureIndex) := d;
    Done(rest, TpagEntry(spriteBounds, unk2, size, textureIndex))
  }

  /** The entry at pointer `p` of the view after the pointer list fits there. */
  predicate EntryFits(view: PosSlice, p: uint32) {
    InRange(view, p) && Target(view, p).Len() >= ENTRY_SIZE
  }

  /** `Tpag::take`: one texture page per pointer, in pointer order, decoded at
      its pointer; an entry that does not fit fails the section. */
  function Take(input: PosSlice): (r: Parsed<Tpag>)
    requires TableSafe(input, TakeEntry)
    ensures !PointerList(input).Done? ==> r == PointerList(input).PropagateFailure()
    ensures PointerList(input).Done? ==>
      var pl := PointerList(input);
      && (r.Done? <==> forall k :: 0 <= k < |pl.value| ==> EntryFits(pl.rest, pl.value[k]))
      && (r.Done? ==>
        && r.rest == pl.rest
        && |r.value.records| == |pl.value|
        && (forall k :: 0 <= k < |pl.value| ==> r.value.records[k] == TakeEntry(Target(pl.rest, pl.value[k])).value)
        && r.value.locations == Locations(pl.value, 0)
        && WellFormed(r.value))
    ensures !r.Incomplete?
  {
    TakeTableTotal(input, TakeEntry, 0, (v: PosSlice) => v.Len() >= ENTRY_SIZE);
    TakeTable(input, TakeEntry, 0)
  }

  /** `Tpag::get(loc)` after `take`: the entry decoded at the last pointer equal
      to `loc`, or `None` when no pointer is `loc`. */
  lemma GetPage(input: PosSlice, loc: uint32)
    requires TableSafe(input, TakeEntry) && Take(input).Done?
    ensures
      var pl := PointerList(input);
      var t := Take(input).value;
      && WellFormed(t)
      && (Get(t, loc).None? <==> loc !in pl.value)
      && (Get(t, loc).Some? ==>
          var j := t.locations[loc];
          && IsLastKeyIndex(pl.value, 0, loc, j)
          && EntryFits(pl.rest, pl.value[j])
          && Get(t, loc).value == TakeEntry(Target(pl.rest, pl.value[j])).value)
  {
    GetAfterTake(input, TakeEntry, 0, loc);
    ZeroShiftKeys(PointerList(input).value, loc);
  }
}
