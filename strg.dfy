/** The STRG section: a table of length-prefixed strings. Its `locations` are
    keyed by `pointer + 4`, the position of a string's first character. */
module StrgSection {
  import opened BoundedInts
  import opened Wrappers
  import opened Nom
  import opened TrackSlice
  import opened ByteParsers
  import opened IndirectTable

  /** `Strg`: the strings (kept as their raw bytes) and `locations`. */
  type Strg = Table<seq<uint8>>

  /** The key under which the string at pointer `p` is found. */
  const KEY_SHIFT: uint32 := 4

  /** The string at pointer `p` of the view after the pointer list fits there:
      `get_strg_string_at_offset` reads a `u32` length and that many bytes. */
  predicate StringFits(view: PosSlice, p: uint32) {
    InRange(view, p) && HasLengthPrefixed(Target(view, p))
  }

  /** `Strg::take`: every pointer names a string, in pointer order, keyed by
      `pointer + 4`; one string that does not fit fails the section with its
      error, and so does a short pointer list. */
  function Take(input: PosSlice): (r: Parsed<Strg>)
    requires TableSafe(input, LengthPrefixed)
    ensures !PointerList(input).Done? ==> r == PointerList(input).PropagateFailure()
    ensures PointerList(input).Done? ==>
      var pl := PointerList(input);
      && (r.Done? <==> forall k :: 0 <= k < |pl.value| ==> StringFits(pl.rest, pl.value[k]))
      && (r.Done? ==>
        && r.rest == pl.rest
        && |r.value.records| == |pl.value|
        && (forall k :: 0 <= k < |pl.value| ==> r.value.records[k] == LengthPrefixedBytes(Target(pl.rest, pl.value[k])))
        && r.value.locations == Locations(pl.value, KEY_SHIFT)
        && WellFormed(r.value))
    ensures !r.Incomplete?
  {
    TakeTableTotal(input, LengthPrefixed, KEY_SHIFT, HasLengthPrefixed);
    TakeTable(input, LengthPrefixed, KEY_SHIFT)
  }

  /** `Strg::get(loc)` after `take`: the string whose first character is at `loc`
      (the last such pointer wins), or `None` when no pointer plus 4 is `loc`. */
  lemma GetString(input: PosSlice, loc: uint32)
    requires TableSafe(input, LengthPrefixed) && Take(input).Done?
    ensures
      var pl := PointerList(input);
      var t := Take(input).value;
      && WellFormed(t)
      && (Get(t, loc).None? <==> forall j :: 0 <= j < |pl.value| ==> WrappingAdd(pl.value[j], KEY_SHIFT) != loc)
      && (Get(t, loc).Some? ==>
          var j := t.locations[loc];
          && IsLastKeyIndex(pl.value, KEY_SHIFT, loc, j)
          && StringFits(pl.rest, pl.value[j])
          && Get(t, loc).value == LengthPrefixedBytes(Target(pl.rest, pl.value[j])))
  {
    GetAfterTake(input, LengthPrefixed, KEY_SHIFT, loc);
  }
}
