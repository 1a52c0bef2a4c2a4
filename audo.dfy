/** The AUDO section: a table of embedded audio files, each a `u32` size
    followed by that many bytes. */
module AudoSection {
  import opened BoundedInts
  import opened Wrappers
  import opened Nom
  import opened TrackSlice
  import opened ByteParsers
  import opened IndirectTable

  /** `Audo`: the files and `locations`, keyed by the pointers themselves. */
  type Audo = Table<seq<uint8>>

  /** `take_audo_entry`: a `u32` size, then exactly that many bytes. */
  function TakeAudoEntry(v: PosSlice): (r: Parsed<seq<uint8>>)
    ensures r.Done? <==> HasLengthPrefixed(v)
    ensures r.Done? ==> r.value == LengthPrefixedBytes(v) && r.rest == v.Offset(4 + |r.value|)
    ensures !r.Done? ==> r.Error? && r.kind == Eof
  {
    LengthPrefixed(v)
  }

  /** The file at pointer `p` of the view after the pointer list fits there. */
  predicate FileFits(view: PosSlice, p: uint32) {
    InRange(view, p) && HasLengthPrefixed(Target(view, p))
  }

  /** `Audo::take`: one file per pointer, in pointer order, each the bytes that
      follow its size word; a file that does not fit fails the section. */
  function Take(input: PosSlice): (r: Parsed<Audo>)
    requires TableSafe(input, TakeAudoEntry)
    ensures !PointerList(input).Done? ==> r == PointerList(input).PropagateFailure()
    ensures PointerList(input).Done? ==>
      var pl := PointerList(input);
      && (r.Done? <==> forall k :: 0 <= k < |pl.value| ==> FileFits(pl.rest, pl.value[k]))
      && (r.Done? ==>
        && r.rest == pl.rest
        && |r.value.records| == |pl.value|
        && (forall k :: 0 <= k < |pl.value| ==> r.value.records[k] == LengthPrefixedBytes(Target(pl.rest, pl.value[k])))
        && r.value.locations == Locations(pl.value, 0)
        && WellFormed(r.value))
    ensures !r.Incomplete?
  {
    TakeTableTotal(input, TakeAudoEntry, 0, HasLengthPrefixed);
    TakeTable(input, TakeAudoEntry, 0)
  }

  /** `Audo::get(loc)` after `take`: the file at the last pointer equal to `loc`,
      or `None` when no pointer is `loc`. */
  lemma GetFile(input: PosSlice, loc: uint32)
    requires TableSafe(input, TakeAudoEntry) && Take(input).Done?
    ensures
      var pl := PointerList(input);
      var t := Take(input).value;
      && WellFormed(t)
      && (Get(t, loc).None? <==> loc !in pl.value)
      && (Get(t, loc).Some? ==>
          var j := t.locations[loc];
          && IsLastKeyIndex(pl.value, 0, loc, j)
          && FileFits(pl.rest, pl.value[j])
          && Get(t, loc).value == LengthPrefixedBytes(Target(pl.rest, pl.value[j])))
  {
    GetAfterTake(input, TakeAudoEntry, 0, loc);
    ZeroShiftKeys(PointerList(input).value, loc);
  }
}
