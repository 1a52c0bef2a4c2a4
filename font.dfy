/** The FONT section: a table of font descriptors. Each has a 12-word header
    whose last word counts the glyph pointers that follow it; every glyph is a
    7-halfword record found at its pointer, relative to the view after the
    glyph pointers. */
module FontSection {
  import opened BoundedInts
  import opened Wrappers
  import opened Nom
  import opened TrackSlice
  import opened ByteParsers
  import opened IndirectTable

  /** `Point16`: a pair of `u16`. */
  datatype Point16 = Point16(x: uint16, y: uint16)

  /** `Rect16`: a pair of points. */
  datatype Rect16 = Rect16(first: Point16, second: Point16)

  /** `FontChar`: the glyph's character, its rectangle and its origin. */
  datatype FontChar = FontChar(character: char, bounds: Rect16, origin: Point16)

  /** `FontEntry`; the floats are kept as their bits. */
  datatype FontEntry = FontEntry(
    name: uint32,
    fontName: uint32,
    size: Float32Bits,
    unk: (uint32, uint32, uint32, uint32),
    entireFontTpag: uint32,
    unk2: (Float32Bits, Float32Bits),
    unk3: uint32,
    chars: seq<FontChar>)

  /** `Font`: the fonts and `locations`, keyed by the pointers themselves. */
  type Font = Table<FontEntry>

  /** Bytes in one glyph record. */
  const CHAR_SIZE: nat := 14

  /** Words in the header of a font record; the last one is the glyph count. */
  const HEADER_WORDS: nat := 12

  /** A UTF-16 code unit that decodes on its own: anything but a surrogate. */
  predicate IsScalarUnit(u: uint16) {
    u < 0xD800 || 0xE000 <= u
  }

  /** `get_char_entry_at_offset` unwraps the UTF-16 decoding of the glyph's code
      unit, so a glyph that reads must not hold a surrogate. */
  predicate CharSafe(v: PosSlice) {
    v.Len() >= CHAR_SIZE ==> IsScalarUnit(HalfWordAt(v, 0))
  }

  /** The point made of halfwords `k` and `k + 1`. */
  function PointAt(v: PosSlice, k: nat): Point16
    requires 2 * k + 4 <= v.Len()
  {
    Point16(HalfWordAt(v, k), HalfWordAt(v, k + 1))
  }

  /** The glyph record of `get_char_entry_at_offset`: the code unit, the
      rectangle (halfwords 1 to 4) and the origin (halfwords 5 and 6); a short
      record fails at its last whole halfword. */
  function TakeChar(v: PosSlice): (r: Parsed<FontChar>)
    requires CharSafe(v)
    ensures r.Done? <==> v.Len() >= CHAR_SIZE
    ensures r.Done? ==>
      && r.rest == v.Offset(CHAR_SIZE)
      && r.value.character as int == HalfWordAt(v, 0) as int
      && r.value.bounds == Rect16(PointAt(v, 1), PointAt(v, 3))
      && r.value.origin == PointAt(v, 5)
    ensures !r.Done? ==> r == Error(v.Offset(WholeHalfWords(v.Len())), Eof)
  {
    var hs :- CountU16(v, 7);
    var (rest, h) := hs;
    Done(rest, FontChar(h[0] as char, Rect16(Point16(h[1], h[2]), Point16(h[3], h[4])), Point16(h[5], h[6])))
  }

  /** The glyph at pointer `p` of the view after the glyph pointers fits there. */
  predicate CharFits(view: PosSlice, p: uint32) {
    InRange(view, p) && Target(view, p).Len() >= CHAR_SIZE
  }

  /** When every glyph that is reached is safe, all glyphs decode exactly when
      every pointer is in range and its record fits. */
  lemma CharsDecodeIff(view: PosSlice, ptrs: seq<uint32>)
    requires AllSafe(view, ptrs, TakeChar)
    ensures DecodedBefore(view, ptrs, TakeChar, |ptrs|) <==>
      forall k :: 0 <= k < |ptrs| ==> CharFits(view, ptrs[k])
  {
    if forall k :: 0 <= k < |ptrs| ==> CharFits(view, ptrs[k]) {
      CharsDecodeUpTo(view, ptrs, |ptrs|);
    }
  }

  lemma {:induction false} CharsDecodeUpTo(view: PosSlice, ptrs: seq<uint32>, n: nat)
    requires n <= |ptrs| && AllSafe(view, ptrs, TakeChar)
    requires forall k :: 0 <= k < |ptrs| ==> CharFits(view, ptrs[k])
    ensures DecodedBefore(view, ptrs, TakeChar, n)
  {
    if n > 0 {
      CharsDecodeUpTo(view, ptrs, n - 1);
      assert SafeAt(view, ptrs[n - 1], TakeChar);
      assert CharFits(view, ptrs[n - 1]);
    }
  }

  /** The glyph pointers after the header: `count(le_u32, char_count)` with the
      count in header word 11. */
  function CharList(v: PosSlice): (r: Parsed<seq<uint32>>)
    requires v.Len() >= 4 * HEADER_WORDS
    ensures r.Done? <==> v.Len() >= 4 * (HEADER_WORDS + WordAt(v, 11))
    ensures r.Done? ==>
      && |r.value| == WordAt(v, 11)
      && r.rest == v.Offset(4 * (HEADER_WORDS + WordAt(v, 11)))
      && WordsAt(v, HEADER_WORDS, r.value)
    ensures !r.Done? ==> r == Error(v.Offset(WholeWords(v.Len())), Eof)
  {
    CountU32Then(v, HEADER_WORDS, WordAt(v, 11));
    CountU32(v.Offset(4 * HEADER_WORDS), WordAt(v, 11))
  }

  /** The `tuple` of twelve word fields that opens a font record; a short header
      fails at its last whole word. */
  function TakeHeader(v: PosSlice): (r: Parsed<seq<uint32>>)
    ensures r.Done? <==> v.Len() >= 4 * HEADER_WORDS
    ensures r.Done? ==>
      && r.rest == v.Offset(4 * HEADER_WORDS)
      && |r.value| == HEADER_WORDS
      && forall k :: 0 <= k < HEADER_WORDS ==> r.value[k] == WordAt(v, k)
    ensures !r.Done? ==> r == Error(v.Offset(WholeWords(v.Len())), Eof)
  {
    var hs :- CountU32(v, HEADER_WORDS);
    var (afterHeader, w) := hs;
    WordsAtIff(v, 0, w);
    Done(afterHeader, w)
  }

  /** Decoding a font record does not panic: when its glyph pointers read,
      every glyph that is reached resolves inside the view and is safe. */
  ghost predicate FontEntrySafe(v: PosSlice) {
    v.Len() >= 4 * HEADER_WORDS && CharList(v).Done? ==>
      AllSafe(CharList(v).rest, CharList(v).value, TakeChar)
  }

  /** The glyph pointers after the header, then one glyph per pointer, in
      pointer order, relative to the view after the pointers; the first glyph
      that fails fails the list with its error. */
  function TakeGlyphs(v: PosSlice): (r: Parsed<seq<FontChar>>)
    requires v.Len() >= 4 * HEADER_WORDS && FontEntrySafe(v)
    ensures !CharList(v).Done? ==> r == CharList(v).PropagateFailure()
    ensures CharList(v).Done? ==>
      var cl := CharList(v);
      && (r.Done? <==> DecodedBefore(cl.rest, cl.value, TakeChar, |cl.value|))
      && (r.Done? <==> forall k :: 0 <= k < |cl.value| ==> CharFits(cl.rest, cl.value[k]))
      && (r.Done? ==>
        && r.rest == cl.rest
        && |r.value| == |cl.value|
        && forall k :: 0 <= k < |cl.value| ==> r.value[k] == TakeChar(Target(cl.rest, cl.value[k])).value)
      && (!r.Done? ==> r == DecodeAll(cl.rest, cl.value, TakeChar).PropagateFailure())
    ensures !r.Incomplete?
  {
    var os :- CharList(v);
    var (view, offsets) := os;
    CharsDecodeIff(view, offsets);
    assert Decisive(TakeChar);
    DecodeAll(view, offsets, TakeChar)
  }

  /** `get_font_entry_at_offset` once the view is at the record: the header,
      then the glyphs; a short header fails at its last whole word, and a
      failing glyph list fails the font with its error. The rest is the view
      after the glyph pointers. */
  function TakeFontEntry(v: PosSlice): (r: Parsed<FontEntry>)
    requires FontEntrySafe(v)
    ensures v.Len() < 4 * HEADER_WORDS ==> r == Error(v.Offset(WholeWords(v.Len())), Eof)
    ensures v.Len() >= 4 * HEADER_WORDS ==>
      && (r.Done? <==> TakeGlyphs(v).Done?)
      && (r.Done? ==> r.rest == TakeGlyphs(v).rest && r.value.chars == TakeGlyphs(v).value)
      && (!r.Done? ==> r == TakeGlyphs(v).PropagateFailure())
    ensures !r.Incomplete?
  {
    var hs :- TakeHeader(v);
    var (_, w) := hs;
    var cs :- TakeGlyphs(v);
    var (view, chars) := cs;
    Done(view, FontEntry(w[0], w[1], w[2], (w[3], w[4], w[5], w[6]), w[7], (w[8], w[9]), w[10], chars))
  }

  /** The header fields of a decoded font are its first eleven words, in
      declared order. */
  lemma FontEntryHeader(v: PosSlice)
    requires FontEntrySafe(v) && TakeFontEntry(v).Done?
    ensures
      var e := TakeFontEntry(v).value;
      && e.name == WordAt(v, 0) && e.fontName == WordAt(v, 1)
      && e.size == WordAt(v, 2)
      && e.unk == (WordAt(v, 3), WordAt(v, 4), WordAt(v, 5), WordAt(v, 6))
      && e.entireFontTpag == WordAt(v, 7)
      && e.unk2 == (WordAt(v, 8), WordAt(v, 9))
      && e.unk3 == WordAt(v, 10)
  {
  }

  /** `Font::take`: one font per pointer, in pointer order, decoded at its
      pointer; the first font that fails fails the section with its error. */
  function Take(input: PosSlice): (r: Parsed<Font>)
    requires TableSafe(input, TakeFontEntry)
    ensures !PointerList(input).Done? ==> r == PointerList(input).PropagateFailure()
    ensures PointerList(input).Done? ==>
      var pl := PointerList(input);
      && (r.Done? <==> DecodedBefore(pl.rest, pl.value, TakeFontEntry, |pl.value|))
      && (r.Done? ==>
        && r.rest == pl.rest
        && |r.value.records| == |pl.value|
        && (forall k :: 0 <= k < |pl.value| ==> r.value.records[k] == TakeFontEntry(Target(pl.rest, pl.value[k])).value)
        && r.value.locations == Locations(pl.value, 0)
        && WellFormed(r.value))
      && (!r.Done? ==> r == DecodeAll(pl.rest, pl.value, TakeFontEntry).PropagateFailure())
    ensures !r.Incomplete?
  {
    assert Decisive(TakeFontEntry);
    TakeTable(input, TakeFontEntry, 0)
  }

  /** `Font::get(loc)` after `take`: the font decoded at the last pointer equal
      to `loc`, or `None` when no pointer is `loc`. */
  lemma GetFont(input: PosSlice, loc: uint32)
    requires TableSafe(input, TakeFontEntry) && Take(input).Done?
    ensures
      var pl := PointerList(input);
      var t := Take(input).value;
      && WellFormed(t)
      && (Get(t, loc).None? <==> loc !in pl.value)
      && (Get(t, loc).Some? ==>
          var j := t.locations[loc];
          && IsLastKeyIndex(pl.value, 0, loc, j)
          && SafeAt(pl.rest, pl.value[j], TakeFontEntry)
          && Get(t, loc).value == TakeFontEntry(Target(pl.rest, pl.value[j])).value)
  {
    GetAfterTake(input, TakeFontEntry, 0, loc);
    ZeroShiftKeys(PointerList(input).value, loc);
  }
}
