/** The OBJT section: game objects read through a `PosCursor` as a pointer
    list of two-word records. */
module ObjtSection {
  import opened BoundedInts
  import opened Wrappers
  import opened Nom
  import opened TrackSlice
  import opened ByteParsers
  import opened Cursor

  /** `ObjtEntry`. */
  datatype ObjtEntry = ObjtEntry(nameOffset: uint32, spriteIndex: uint32)

  /** `Objt`. */
  datatype Objt = Objt(entries: seq<ObjtEntry>)

  /** Bytes in one entry. */
  const ENTRY_SIZE: nat := 8

  /** The derived read of `ObjtEntry`: `name_offset`, then `sprite_index`, each
      a little-endian `u32`. */
  function ReadEntry(c: Cur): (r: Option<(ObjtEntry, nat)>)
    ensures r.Some? <==> c.inner + ENTRY_SIZE <= |c.data|
    ensures r.Some? ==>
      r.value == (ObjtEntry(U32At(c.data, c.inner), U32At(c.data, c.inner + 4)), c.inner + ENTRY_SIZE)
  {
    var w :- ReadWords(c, 2);
    Some((ObjtEntry(w.0[0], w.0[1]), w.1))
  }

  /** The entries the derived read of `Objt` finds in `input`, or `None` when
      one of its reads or seeks fails. */
  function Entries(input: PosSlice): Option<seq<ObjtEntry>> {
    var l :- PtrListSpec(Opened(input), ReadEntry);
    Some(l.0)
  }

  /** `Objt::take`: the remainder is the whole input; any failure of the read
      is a `ParseTo` error at the input. */
  method Take(input: PosSlice) returns (r: Parsed<Objt>)
    ensures Entries(input).Some? ==> r == Done(input, Objt(Entries(input).value))
    ensures Entries(input).None? ==> r == Error(input, ParseTo)
  {
    var cursor := new PosCursor.From(input);
    var entries := PtrList(cursor, ReadEntry);
    if entries.None? {
      return Error(input, ParseTo);
    }
    return Done(input, Objt(entries.value));
  }

  /** The entry at absolute position `p` lies inside the section. */
  predicate EntryFits(input: PosSlice, p: uint32) {
    p >= input.Pos() && p - input.Pos() + ENTRY_SIZE <= input.Len()
  }

  /** The entries are one per pointer, in pointer order, each read at its own
      absolute pointer; the read fails exactly when the count or the pointers
      are cut short or some entry does not fit. */
  lemma EntriesAtPointers(input: PosSlice)
    ensures Entries(input).Some? <==>
      && HasPointers(Opened(input))
      && forall k :: 0 <= k < |Pointers(Opened(input))| ==> EntryFits(input, Pointers(Opened(input))[k])
    ensures Entries(input).Some? ==>
      var ptrs := Pointers(Opened(input));
      && |Entries(input).value| == |ptrs|
      && forall k :: 0 <= k < |ptrs| ==>
           var at := ptrs[k] - input.Pos();
           Entries(input).value[k] == ObjtEntry(U32At(input.Bytes(), at), U32At(input.Bytes(), at + 4))
  {
    var c := Opened(input);
    PtrListReadsEach(c, ReadEntry);
    if HasPointers(c) {
      forall k | 0 <= k < |Pointers(c)|
        ensures Resolves(c, Pointers(c)[k], ReadEntry) <==> EntryFits(input, Pointers(c)[k])
      {
      }
    }
  }
}
