/** The AGRP section: a table of audio-group words. It is not part of the
    section registry; it is a self-contained decoder. */
module AgrpSection {
  import opened BoundedInts
  import opened Wrappers
  import opened Nom
  import opened TrackSlice
  import opened ByteParsers
  import opened IndirectTable

  /** `Agrp`: the audio groups and `locations`, keyed by the pointers themselves. */
  type Agrp = Table<uint32>

  /** The record part of `get_agrp_entry_at_offset`: a single `le_u32`. */
  function TakeEntry(v: PosSlice): (r: Parsed<uint32>)
    ensures r.Done? <==> v.Len() >= 4
    ensures r.Done? ==> r.value == WordAt(v, 0) && r.rest == v.Offset(4)
    ensures !r.Done? ==> r == Error(v, Eof)
  {
    LeU32(v)
  }

  /** `Agrp::take`: one word per pointer, in pointer order, read at the
      pointer; the rest is the view after the pointer list. */
  function Take(input: PosSlice): (r: Parsed<Agrp>)
    requires TableSafe(input, TakeEntry)
    ensures !PointerList(input).Done? ==> r == PointerList(input).PropagateFailure()
    ensures PointerList(input).Done? ==>
      var pl := PointerList(input);
      && (r.Done? <==> forall k :: 0 <= k < |pl.value| ==> InRange(pl.rest, pl.value[k]) && Target(pl.rest, pl.value[k]).Len() >= 4)
      && (r.Done? ==>
        && r.rest == pl.rest
        && |r.value.records| == |pl.value|
        && (forall k :: 0 <= k < |pl.value| ==> r.value.records[k] == WordAt(Target(pl.rest, pl.value[k]), 0))
        && r.value.locations == Locations(pl.value, 0)
        && WellFormed(r.value))
    ensures !r.Incomplete?
  {
    TakeTableTotal(input, TakeEntry, 0, (v: PosSlice) => v.Len() >= 4);
    TakeTable(input, TakeEntry, 0)
  }

  /** Every pointer in range of the view is a key of `locations`, mapping to the
      index of its last occurrence; nothing else is a key. */
  lemma LocationsOfTake(input: PosSlice, loc: uint32)
    requires TableSafe(input, TakeEntry) && Take(input).Done?
    ensures
      var pl := PointerList(input);
      var t := Take(input).value;
      && (loc in t.locations <==> loc in pl.value)
      && (loc in t.locations ==> IsLastKeyIndex(pl.value, 0, loc, t.locations[loc]))
  {
    ZeroShiftKeys(PointerList(input).value, loc);
  }
}
