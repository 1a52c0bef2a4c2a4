/** The SOND section: a table of fixed-size sound descriptors. */
module SondSection {
  import opened BoundedInts
  import opened Wrappers
  import opened Nom
  import opened TrackSlice
  import opened ByteParsers
  import opened IndirectTable

  /** `SondEntry`: nine little-endian words; `playSpeed` is an `f32` kept as its bits. */
  datatype SondEntry = SondEntry(
    nameOffset: uint32,
    unk1: uint32,
    unk2: uint32,
    nameOffset2: uint32,
    unk3: uint32,
    playSpeed: Float32Bits,
    unk4: uint32,
    audiogroupIndex: uint32,
    indexInAudiogroup: uint32)

  /** `Sond`: the sounds and `locations`, keyed by the pointers themselves. */
  type Sond = Table<SondEntry>

  /** Bytes in one `SondEntry`. */
  const ENTRY_SIZE: nat := 36

  /** `SondEntry::take`: the nine fields in declared order, one word each, 36
      bytes in all; a short record fails at its last whole word. */
  function TakeEntry(v: PosSlice): (r: Parsed<SondEntry>)
    ensures r.Done? <==> v.Len() >= ENTRY_SIZE
    ensures r.Done? ==>
      && r.rest == v.Offset(ENTRY_SIZE)
      && r.value.nameOffset == WordAt(v, 0) && r.value.unk1 == WordAt(v, 1)
      && r.value.unk2 == WordAt(v, 2) && r.value.nameOffset2 == WordAt(v, 3)
      && r.value.unk3 == WordAt(v, 4) && r.value.playSpeed == WordAt(v, 5)
      && r.value.unk4 == WordAt(v, 6) && r.value.audiogroupIndex == WordAt(v, 7)
      && r.value.indexInAudiogroup == WordAt(v, 8)
    ensures !r.Done? ==> r == Error(v.Offset(WholeWords(v.Len())), Eof)
  {
    var ws :- CountU32(v, 9);
    var (rest, w) := ws;
    WordsAtIff(v, 0, w);
    Done(rest, SondEntry(w[0], w[1], w[2], w[3], w[4], w[5], w[6], w[7], w[8]))
  }

  /** The record at pointer `p` of the view after the pointer list fits there. */
  predicate EntryFits(view: PosSlice, p: uint32) {
    InRange(view, p) && Target(view, p).Len() >= ENTRY_SIZE
  }

  /** `Sond::take`: one sound per pointer, in pointer order, decoded at its
      pointer; a record that does not fit fails the section. */
  function Take(input: PosSlice): (r: Parsed<Sond>)
    requires TableSafe(input, TakeEntry)
    ensures !PointerList(input).Done? ==> r == PointerList(input).PropagateFailure()
    ensures PointerList(input).Done? ==>
      var pl := PointerList(input);
      && (r.Done? <==> forall k :: 0 <= k < |pl.value| ==> EntryFits(pl.rest, pl.value[k]))
      && (r.Done? ==>
        && r.rest == pl.rest
        && |r.value.records| == |pl.value|
        && (forall k :: 0 <= k < |pl.value| ==> r.value.records[k] == TakeEntry(Target(pl.rest, pl.value[k])).value)
        && r.value.locations == Locations(pl.value, 0)
        && WellFormed(r.value))
    ensures !r.Incomplete?
  {
    TakeTableTotal(input, TakeEntry, 0, (v: PosSlice) => v.Len() >= ENTRY_SIZE);
    TakeTable(input, TakeEntry, 0)
  }

  /** `Sond::get(loc)` after `take`: the sound decoded at the last pointer equal
      to `loc`, or `None` when no pointer is `loc`. */
  lemma GetSound(input: PosSlice, loc: uint32)
    requires TableSafe(input, TakeEntry) && Take(input).Done?
    ensures
      var pl := PointerList(input);
      var t := Take(input).value;
      && WellFormed(t)
      && (Get(t, loc).None? <==> loc !in pl.value)
      && (Get(t, loc).Some? ==>
          var j := t.locations[loc];
          && IsLastKeyIndex(pl.value, 0, loc, j)
          && EntryFits(pl.rest, pl.value[j])
          && Get(t, loc).value == TakeEntry(Target(pl.rest, pl.value[j])).value)
  {
    GetAfterTake(input, TakeEntry, 0, loc);
    ZeroShiftKeys(PointerList(input).value, loc);
  }
}
