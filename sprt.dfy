/** The SPRT section: a table of sprite descriptors. Each has a 17-word fixed
    prefix, a run of floats whose length the prefix gives, three more words, and
    a run of texture-page pointers whose length the last of those words gives. */
module SprtSection {
  import opened BoundedInts
  import opened Wrappers
  import opened Nom
  import opened TrackSlice
  import opened ByteParsers
  import opened IndirectTable

  /** `Point32`: a pair of `u32`. */
  datatype Point32 = Point32(x: uint32, y: uint32)

  /** `Rect32`: a pair of points. */
  datatype Rect32 = Rect32(first: Point32, second: Point32)

  /** `SprtEntry`; the floats are kept as their bits. */
  datatype SprtEntry = SprtEntry(
    nameOffset: uint32,
    size: Point32,
    bounds: Rect32,
    origin: Point32,
    unk3: int32,
    opacityMaybe: Float32Bits,
    unk5: uint32,
    tpagOffsets: seq<uint32>,
    unkFloats: seq<Float32Bits>)

  /** `Sprt`: the sprites and `locations`, keyed by the pointers themselves. */
  type Sprt = Table<SprtEntry>

  /** Words in the fixed prefix. */
  const PREFIX_WORDS: nat := 17

  /** The point made of words `k` and `k + 1`. */
  function PointAt(v: PosSlice, k: nat): Point32
    requires 4 * k + 8 <= v.Len()
  {
    Point32(WordAt(v, k), WordAt(v, k + 1))
  }

  /** The rectangle made of words `k .. k + 4`. */
  function RectAt(v: PosSlice, k: nat): Rect32
    requires 4 * k + 16 <= v.Len()
  {
    Rect32(PointAt(v, k), PointAt(v, k + 2))
  }

  /** `take_point32`: two `le_u32`, 8 bytes. */
  function TakePoint32(v: PosSlice): (r: Parsed<Point32>)
    ensures r.Done? <==> v.Len() >= 8
    ensures r.Done? ==> r.value == PointAt(v, 0) && r.rest == v.Offset(8)
    ensures !r.Done? ==> r == Error(v.Offset(WholeWords(v.Len())), Eof)
  {
    var ws :- CountU32(v, 2);
    var (rest, w) := ws;
    WordsAtIff(v, 0, w);
    Done(rest, Point32(w[0], w[1]))
  }

  /** A point read `q` words into the view. */
  lemma PointAfter(v: PosSlice, q: nat)
    requires 4 * q <= v.Len()
    ensures
      var r := TakePoint32(v.Offset(4 * q));
      && (r.Done? <==> v.Len() >= 4 * q + 8)
      && (r.Done? ==> r.value == PointAt(v, q) && r.rest == v.Offset(4 * q + 8))
      && (!r.Done? ==> r == Error(v.Offset(WholeWords(v.Len())), Eof))
  {
    var r := TakePoint32(v.Offset(4 * q));
    if r.Done? {
      WordAtOffset(v, q, 0);
      WordAtOffset(v, q, 1);
    } else {
      WholeWordsSkip(v.Len(), q);
    }
  }

  /** `take_rect32`: two points, 16 bytes. */
  function TakeRect32(v: PosSlice): (r: Parsed<Rect32>)
    ensures r.Done? <==> v.Len() >= 16
    ensures r.Done? ==> r.value == RectAt(v, 0) && r.rest == v.Offset(16)
    ensures !r.Done? ==> r == Error(v.Offset(WholeWords(v.Len())), Eof)
  {
    var a :- TakePoint32(v);
    var (afterFirst, first) := a;
    PointAfter(v, 2);
    var b :- TakePoint32(afterFirst);
    var (afterSecond, second) := b;
    Done(afterSecond, Rect32(first, second))
  }

  /** A rectangle read `q` words into the view. */
  lemma RectAfter(v: PosSlice, q: nat)
    requires 4 * q <= v.Len()
    ensures
      var r := TakeRect32(v.Offset(4 * q));
      && (r.Done? <==> v.Len() >= 4 * q + 16)
      && (r.Done? ==> r.value == RectAt(v, q) && r.rest == v.Offset(4 * q + 16))
      && (!r.Done? ==> r == Error(v.Offset(WholeWords(v.Len())), Eof))
  {
    var r := TakeRect32(v.Offset(4 * q));
    if r.Done? {
      WordAtOffset(v, q, 0);
      WordAtOffset(v, q, 1);
      WordAtOffset(v, q, 2);
      WordAtOffset(v, q, 3);
    } else {
      WholeWordsSkip(v.Len(), q);
    }
  }

  /** The fields of the fixed prefix that the entry keeps. */
  datatype Prefix = Prefix(nameOffset: uint32, size: Point32, bounds: Rect32, origin: Point32, unk3: uint32, floatCount: uint32)

  /** The first three fields of the prefix: `name_offset`, `size`, `bounds`
      (7 words). */
  function TakeHead(v: PosSlice): (r: Parsed<(uint32, Point32, Rect32)>)
    ensures r.Done? <==> v.Len() >= 28
    ensures r.Done? ==> r.rest == v.Offset(28) && r.value == (WordAt(v, 0), PointAt(v, 1), RectAt(v, 3))
    ensures !r.Done? ==> r == Error(v.Offset(WholeWords(v.Len())), Eof)
  {
    WordAfter(v, 0);
    var a :- LeU32(v.Offset(0));
    var (r1, nameOffset) := a;
    PointAfter(v, 1);
    var b :- TakePoint32(r1);
    var (r3, size) := b;
    RectAfter(v, 3);
    var c :- TakeRect32(r3);
    var (r7, bounds) := c;
    Done(r7, (nameOffset, size, bounds))
  }

  /** Words 7 to 13 of the prefix: five skipped words, then `origin`. */
  function TakeOrigin(v: PosSlice): (r: Parsed<Point32>)
    requires v.Len() >= 28
    ensures r.Done? <==> v.Len() >= 56
    ensures r.Done? ==> r.rest == v.Offset(56) && r.value == PointAt(v, 12)
    ensures !r.Done? ==> r == Error(v.Offset(WholeWords(v.Len())), Eof)
  {
    CountU32Then(v, 7, 5);
    var d :- CountU32(v.Offset(28), 5);
    var (r12, _) := d;
    PointAfter(v, 12);
    TakePoint32(r12)
  }

  /** The rest of the prefix, read from word 7: five skipped words, `origin`,
      `unk3`, one skipped word and the float count. */
  function TakeTail(v: PosSlice): (r: Parsed<(Point32, uint32, uint32)>)
    requires v.Len() >= 28
    ensures r.Done? <==> v.Len() >= 4 * PREFIX_WORDS
    ensures r.Done? ==> r.rest == v.Offset(4 * PREFIX_WORDS) && r.value == (PointAt(v, 12), WordAt(v, 14), WordAt(v, 16))
    ensures !r.Done? ==> r == Error(v.Offset(WholeWords(v.Len())), Eof)
  {
    var e :- TakeOrigin(v);
    var (r14, origin) := e;
    ThreeWordsAfter(v, 14);
    var f :- TakeThreeWords(r14);
    var (r17, words) := f;
    Done(r17, (origin, words.0, words.2))
  }

  /** The first `tuple` of `SprtEntry::take`: `name_offset`, `size`, `bounds`,
      five skipped words, `origin`, `unk3`, one skipped word, the float count. */
  function TakePrefix(v: PosSlice): (r: Parsed<Prefix>)
    ensures r.Done? <==> v.Len() >= 4 * PREFIX_WORDS
    ensures r.Done? ==>
      && r.rest == v.Offset(4 * PREFIX_WORDS)
      && r.value == Prefix(WordAt(v, 0), PointAt(v, 1), RectAt(v, 3), PointAt(v, 12), WordAt(v, 14), WordAt(v, 16))
    ensures !r.Done? ==> r == Error(v.Offset(WholeWords(v.Len())), Eof)
  {
    var a :- TakeHead(v);
    var (r7, head) := a;
    var b := TakeTail(v);
    if !b.Done? then b.PropagateFailure() else
    var (nameOffset, size, bounds) := head;
    var (origin, unk3, floatCount) := b.value;
    Done(b.rest, Prefix(nameOffset, size, bounds, origin, unk3, floatCount))
  }

  /** The number of floats, as the prefix gives it. */
  function FloatCount(v: PosSlice): nat
    requires v.Len() >= 4 * PREFIX_WORDS
  {
    WordAt(v, 16)
  }

  /** A body with `fc` floats fits: the floats, `opacity_maybe`, `unk5`,
      `frame_count` and then `frame_count` texture-page pointers. */
  predicate BodyFits(v: PosSlice, fc: nat) {
    && v.Len() >= 4 * (PREFIX_WORDS + fc + 3)
    && v.Len() >= 4 * (PREFIX_WORDS + fc + 3 + WordAt(v, PREFIX_WORDS + fc + 2))
  }

  /** Bytes in a record whose body has `fc` floats:
      68 + 4 * floats + 12 + 4 * frames. */
  function BodySize(v: PosSlice, fc: nat): nat
    requires BodyFits(v, fc)
  {
    4 * (PREFIX_WORDS + fc + 3 + WordAt(v, PREFIX_WORDS + fc + 2))
  }

  /** A whole sprite record starts at the front of `v`. */
  predicate EntryFits(v: PosSlice) {
    v.Len() >= 4 * PREFIX_WORDS && BodyFits(v, FloatCount(v))
  }

  /** Bytes in the sprite record at the front of `v`. */
  function EntrySize(v: PosSlice): nat
    requires EntryFits(v)
  {
    BodySize(v, FloatCount(v))
  }

  /** Three consecutive word reads, as the end of the first `tuple` of
      `SprtEntry::take` (`unk3`, a skipped word, the float count) and its second
      `tuple` (`opacity_maybe`, `unk5`, `frame_count`) perform them; `le_f32`
      reads the same bits as `le_u32`. */
  function TakeThreeWords(w: PosSlice): (r: Parsed<(uint32, uint32, uint32)>)
    ensures r.Done? <==> w.Len() >= 12
    ensures r.Done? ==> r.rest == w.Offset(12) && r.value == (WordAt(w, 0), WordAt(w, 1), WordAt(w, 2))
    ensures !r.Done? ==> r == Error(w.Offset(WholeWords(w.Len())), Eof)
  {
    WordAfter(w, 0);
    var c :- LeU32(w.Offset(0));
    var (afterOpacity, opacityMaybe) := c;
    WordAfter(w, 1);
    var d :- LeU32(afterOpacity);
    var (afterUnk5, unk5) := d;
    WordAfter(w, 2);
    var e :- LeU32(afterUnk5);
    var (afterCount, frameCount) := e;
    Done(afterCount, (opacityMaybe, unk5, frameCount))
  }

  /** Three words read `q` words into the view. */
  lemma ThreeWordsAfter(v: PosSlice, q: nat)
    requires 4 * q <= v.Len()
    ensures
      var r := TakeThreeWords(v.Offset(4 * q));
      && (r.Done? <==> v.Len() >= 4 * q + 12)
      && (r.Done? ==> r.rest == v.Offset(4 * q + 12) && r.value == (WordAt(v, q), WordAt(v, q + 1), WordAt(v, q + 2)))
      && (!r.Done? ==> r == Error(v.Offset(WholeWords(v.Len())), Eof))
  {
    var r := TakeThreeWords(v.Offset(4 * q));
    if r.Done? {
      WordAtOffset(v, q, 0);
      WordAtOffset(v, q, 1);
      WordAtOffset(v, q, 2);
    } else {
      WholeWordsSkip(v.Len(), q);
    }
  }

  /** After the prefix: `fc` floats, then the trailer. */
  function TakeFloats(v: PosSlice, fc: nat): (r: Parsed<(seq<Float32Bits>, Float32Bits, uint32, uint32)>)
    requires v.Len() >= 4 * PREFIX_WORDS
    ensures r.Done? <==> v.Len() >= 4 * (PREFIX_WORDS + fc + 3)
    ensures r.Done? ==>
      && r.rest == v.Offset(4 * (PREFIX_WORDS + fc + 3))
      && |r.value.0| == fc
      && WordsAt(v, PREFIX_WORDS, r.value.0)
      && r.value.1 == WordAt(v, PREFIX_WORDS + fc)
      && r.value.2 == WordAt(v, PREFIX_WORDS + fc + 1)
      && r.value.3 == WordAt(v, PREFIX_WORDS + fc + 2)
    ensures !r.Done? ==> r == Error(v.Offset(WholeWords(v.Len())), Eof)
  {
    CountU32Then(v, PREFIX_WORDS, fc);
    var b :- CountU32(v.Offset(4 * PREFIX_WORDS), fc);
    var (afterFloats, unkFloats) := b;
    ThreeWordsAfter(v, PREFIX_WORDS + fc);
    var c :- TakeThreeWords(afterFloats);
    var (afterCount, trailer) := c;
    var (opacityMaybe, unk5, frameCount) := trailer;
    Done(afterCount, (unkFloats, opacityMaybe, unk5, frameCount))
  }

  /** The `n` texture-page pointers that end the record, read from word `q`. */
  function TakeFrames(v: PosSlice, q: nat, n: nat): (r: Parsed<seq<uint32>>)
    requires 4 * q <= v.Len()
    ensures r.Done? <==> v.Len() >= 4 * (q + n)
    ensures r.Done? ==> r.rest == v.Offset(4 * (q + n)) && |r.value| == n && WordsAt(v, q, r.value)
    ensures !r.Done? ==> r == Error(v.Offset(WholeWords(v.Len())), Eof)
  {
    CountU32Then(v, q, n);
    CountU32(v.Offset(4 * q), n)
  }

  /** Everything after a prefix announcing `fc` floats: the floats, the
      trailer and the frames. */
  function TakeBody(v: PosSlice, fc: nat): (r: Parsed<(seq<Float32Bits>, Float32Bits, uint32, seq<uint32>)>)
    requires v.Len() >= 4 * PREFIX_WORDS
    ensures r.Done? <==> BodyFits(v, fc)
    ensures r.Done? ==>
      && r.rest == v.Offset(BodySize(v, fc))
      && |r.value.0| == fc
      && WordsAt(v, PREFIX_WORDS, r.value.0)
      && r.value.1 == WordAt(v, PREFIX_WORDS + fc)
      && r.value.2 == WordAt(v, PREFIX_WORDS + fc + 1)
      && |r.value.3| == WordAt(v, PREFIX_WORDS + fc + 2)
      && WordsAt(v, PREFIX_WORDS + fc + 3, r.value.3)
    ensures !r.Done? ==> r == Error(v.Offset(WholeWords(v.Len())), Eof)
  {
    var b := TakeFloats(v, fc);
    if !b.Done? then b.PropagateFailure() else
    var c := TakeFrames(v, PREFIX_WORDS + fc + 3, b.value.3);
    if !c.Done? then c.PropagateFailure() else
    Done(c.rest, (b.value.0, b.value.1, b.value.2, c.value))
  }

  /** How a sprite record at the front of `v` is laid out: the word that each
      field of `e` is read from. `unk3` is its word reinterpreted as `i32`. */
  predicate EntryLayout(v: PosSlice, e: SprtEntry)
    requires EntryFits(v)
  {
    && e.nameOffset == WordAt(v, 0)
    && e.size == PointAt(v, 1)
    && e.bounds == RectAt(v, 3)
    && e.origin == PointAt(v, 12)
    && e.unk3 == AsInt32(WordAt(v, 14))
    && |e.unkFloats| == FloatCount(v)
    && WordsAt(v, PREFIX_WORDS, e.unkFloats)
    && e.opacityMaybe == WordAt(v, PREFIX_WORDS + FloatCount(v))
    && e.unk5 == WordAt(v, PREFIX_WORDS + FloatCount(v) + 1)
    && |e.tpagOffsets| == WordAt(v, PREFIX_WORDS + FloatCount(v) + 2)
    && WordsAt(v, PREFIX_WORDS + FloatCount(v) + 3, e.tpagOffsets)
  }

  /** `SprtEntry::take`: the prefix, `float_count` floats, `opacity_maybe`, `unk5`,
      `frame_count`, then `frame_count` texture-page pointers, laid out as
      `EntryLayout` says. A short record fails at its last whole word. */
  function TakeEntry(v: PosSlice): (r: Parsed<SprtEntry>)
    ensures r.Done? <==> EntryFits(v)
    ensures r.Done? ==> r.rest == v.Offset(EntrySize(v)) && EntryLayout(v, r.value)
    ensures !r.Done? ==> r == Error(v.Offset(WholeWords(v.Len())), Eof)
  {
    var a := TakePrefix(v);
    if !a.Done? then a.PropagateFailure() else
    var b := TakeBody(v, FloatCount(v));
    if !b.Done? then b.PropagateFailure() else
    var (unkFloats, opacityMaybe, unk5, tpagOffsets) := b.value;
    Done(b.rest, SprtEntry(a.value.nameOffset, a.value.size, a.value.bounds, a.value.origin, AsInt32(a.value.unk3),
                           opacityMaybe, unk5, tpagOffsets, unkFloats))
  }

  /** The sprite at pointer `p` of the view after the pointer list fits there. */
  predicate SpriteFits(view: PosSlice, p: uint32) {
    InRange(view, p) && EntryFits(Target(view, p))
  }

  /** `Sprt::take`: one sprite per pointer, in pointer order, decoded at its
      pointer; a sprite that does not fit fails the section. */
  function Take(input: PosSlice): (r: Parsed<Sprt>)
    requires TableSafe(input, TakeEntry)
    ensures !PointerList(input).Done? ==> r == PointerList(input).PropagateFailure()
    ensures PointerList(input).Done? ==>
      var pl := PointerList(input);
      && (r.Done? <==> forall k :: 0 <= k < |pl.value| ==> SpriteFits(pl.rest, pl.value[k]))
      && (r.Done? ==>
        && r.rest == pl.rest
        && |r.value.records| == |pl.value|
        && (forall k :: 0 <= k < |pl.value| ==> r.value.records[k] == TakeEntry(Target(pl.rest, pl.value[k])).value)
        && r.value.locations == Locations(pl.value, 0)
        && WellFormed(r.value))
    ensures !r.Incomplete?
  {
    TakeTableTotal(input, TakeEntry, 0, EntryFits);
    TakeTable(input, TakeEntry, 0)
  }

  /** `Sprt::get(loc)` after `take`: the sprite decoded at the last pointer equal
      to `loc`, or `None` when no pointer is `loc`. */
  lemma GetSprite(input: PosSlice, loc: uint32)
    requires TableSafe(input, TakeEntry) && Take(input).Done?
    ensures
      var pl := PointerList(input);
      var t := Take(input).value;
      && WellFormed(t)
      && (Get(t, loc).None? <==> loc !in pl.value)
      && (Get(t, loc).Some? ==>
          var j := t.locations[loc];
          && IsLastKeyIndex(pl.value, 0, loc, j)
          && SpriteFits(pl.rest, pl.value[j])
          && Get(t, loc).value == TakeEntry(Target(pl.rest, pl.value[j])).value)
  {
    GetAfterTake(input, TakeEntry, 0, loc);
    ZeroShiftKeys(PointerList(input).value, loc);
  }
}
