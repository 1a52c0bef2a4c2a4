/** The GEN8 section: two fields read at fixed offsets of the payload. */
module Gen8Section {
  import opened BoundedInts
  import opened Nom
  import opened TrackSlice
  import opened ByteParsers

  /** `Gen8`: the window size and the offset of the game's name. */
  datatype Gen8 = Gen8(windowSize: (uint32, uint32), gameNameOffset: uint32)

  /** Where the window size starts (word 15). */
  const WINDOW_SIZE_AT: nat := 0x3C

  /** Where the game name offset is (word 25). */
  const GAME_NAME_AT: nat := 0x64

  /** `input.slice(0x3C, len)` panics on a payload shorter than `0x3C`; once the
      window size has read, `input.slice(0x64, len)` panics on one shorter than
      `0x64`. A payload in `0x3C .. 0x44` fails on the window size first. */
  predicate TakeSafe(input: PosSlice) {
    input.Len() >= WINDOW_SIZE_AT && (input.Len() < WINDOW_SIZE_AT + 8 || input.Len() >= GAME_NAME_AT)
  }

  /** `Gen8::take`: the window size is the two words at `0x3C` and `0x40`, the
      game name offset the word at `0x64`; the rest is the payload itself. A
      short read fails at the payload's last whole word. */
  function Take(input: PosSlice): (r: Parsed<Gen8>)
    requires TakeSafe(input)
    ensures r.Done? <==> input.Len() >= GAME_NAME_AT + 4
    ensures r.Done? ==> r.rest == input && r.value == Gen8((WordAt(input, 15), WordAt(input, 16)), WordAt(input, 25))
    ensures !r.Done? ==> r == Error(input.Offset(WholeWords(input.Len())), Eof)
  {
    WordAfter(input, 15);
    var a :- LeU32(input.Slice(WINDOW_SIZE_AT, input.Len()));
    var (afterWidth, width) := a;
    WordAfter(input, 16);
    var b :- LeU32(afterWidth);
    var (_, height) := b;
    WordAfter(input, 25);
    var c :- LeU32(input.Slice(GAME_NAME_AT, input.Len()));
    var (_, gameNameOffset) := c;
    Done(input, Gen8((width, height), gameNameOffset))
  }
}
