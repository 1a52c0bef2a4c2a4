/** The TXTR section: a table of texture headers whose PNG payloads are stored
    back to back after the headers. PNG `k` runs from header `k`'s offset to
    header `k + 1`'s offset; the last one runs to the end of the view. */
module TxtrSection {
  import opened BoundedInts
  import opened Wrappers
  import opened Nom
  import opened TrackSlice
  import opened ByteParsers
  import opened IndirectTable

  /** The three words at a header pointer; `pngOffset` is absolute. */
  datatype Header = Header(unk1: uint32, unk2: uint32, pngOffset: uint32)

  /** `TxtrEntry`: the first two header words and the PNG bytes. */
  datatype TxtrEntry = TxtrEntry(unk1: uint32, unk2: uint32, png: seq<uint8>)

  /** `Txtr`: the textures and `locations`, keyed by the header pointers. */
  type Txtr = Table<TxtrEntry>

  /** Bytes in one header. */
  const HEADER_SIZE: nat := 12

  /** The record part of `get_txtr_entry_at_offset`: three `le_u32`. */
  function TakeHeader(v: PosSlice): (r: Parsed<Header>)
    ensures r.Done? <==> v.Len() >= HEADER_SIZE
    ensures r.Done? ==>
      && r.rest == v.Offset(HEADER_SIZE)
      && r.value == Header(WordAt(v, 0), WordAt(v, 1), WordAt(v, 2))
    ensures !r.Done? ==> r == Error(v.Offset(WholeWords(v.Len())), Eof)
  {
    var ws :- CountU32(v, 3);
    var (rest, w) := ws;
    WordsAtIff(v, 0, w);
    Done(rest, Header(w[0], w[1], w[2]))
  }

  /** No PNG offset lies before the view (the subtraction would underflow). */
  predicate OffsetsAfterStart(view: PosSlice, hs: seq<Header>) {
    forall k :: 0 <= k < |hs| ==> view.pos <= hs[k].pngOffset
  }

  /** Every PNG span is a valid slice of the view: each offset lies in the view
      and no offset is smaller than the one before it. */
  predicate SpansInView(view: PosSlice, hs: seq<Header>) {
    && (forall k :: 0 <= k < |hs| ==> view.pos <= hs[k].pngOffset <= view.pos + view.Len())
    && (forall k :: 0 <= k < |hs| - 1 ==> hs[k].pngOffset <= hs[k + 1].pngOffset)
  }

  /** `png_offsets`: each PNG offset relative to the view, then the view's length. */
  function PngOffsets(view: PosSlice, hs: seq<Header>): (offs: seq<nat>)
    requires OffsetsAfterStart(view, hs)
    ensures |offs| == |hs| + 1
    ensures offs[|hs|] == view.Len()
    ensures forall k :: 0 <= k < |hs| ==> offs[k] == hs[k].pngOffset - view.pos
    ensures SpansInView(view, hs) ==> forall k :: 0 <= k < |hs| ==> offs[k] <= offs[k + 1]
    ensures SpansInView(view, hs) ==> forall k :: 0 <= k <= |hs| ==> offs[k] <= view.Len()
  {
    seq(|hs|, k requires 0 <= k < |hs| => hs[k].pngOffset - view.pos as nat) + [view.Len()]
  }

  /** The PNG bytes of every header. */
  function Pngs(view: PosSlice, hs: seq<Header>): (pngs: seq<seq<uint8>>)
    requires SpansInView(view, hs)
    ensures |pngs| == |hs|
    ensures forall k :: 0 <= k < |hs| ==>
      pngs[k] == view.Bytes()[PngOffsets(view, hs)[k]..PngOffsets(view, hs)[k + 1]]
  {
    var offs := PngOffsets(view, hs);
    seq(|hs|, k requires 0 <= k < |hs| => view.Bytes()[offs[k]..offs[k + 1]])
  }

  /** `files.zip(pngs)`: each header's first two words with its PNG. */
  function Entries(view: PosSlice, hs: seq<Header>): (es: seq<TxtrEntry>)
    requires SpansInView(view, hs)
    ensures |es| == |hs|
    ensures forall k :: 0 <= k < |hs| ==>
      es[k] == TxtrEntry(hs[k].unk1, hs[k].unk2, view.Bytes()[PngOffsets(view, hs)[k]..PngOffsets(view, hs)[k + 1]])
  {
    var pngs := Pngs(view, hs);
    seq(|hs|, k requires 0 <= k < |hs| => TxtrEntry(hs[k].unk1, hs[k].unk2, pngs[k]))
  }

  /** The concatenation of a list of byte strings. */
  function Concat(ss: seq<seq<uint8>>): (r: seq<uint8>)
    ensures |ss| == 0 ==> r == []
    decreases |ss|
  {
    if |ss| == 0 then [] else ss[0] + Concat(ss[1..])
  }

  /** Consecutive spans concatenate to the span from the first start to the last end. */
  lemma {:induction false} SpansConcat(b: seq<uint8>, offs: seq<nat>, spans: seq<seq<uint8>>)
    requires |offs| == |spans| + 1
    requires forall k :: 0 <= k <= |spans| ==> offs[k] <= |b|
    requires forall k :: 0 <= k < |spans| ==> offs[k] <= offs[k + 1]
    requires forall k :: 0 <= k < |spans| ==> spans[k] == b[offs[k]..offs[k + 1]]
    ensures offs[0] <= offs[|spans|]
    ensures Concat(spans) == b[offs[0]..offs[|spans|]]
    decreases |spans|
  {
    if |spans| > 0 {
      assert forall k :: 0 <= k < |spans| ==> offs[1..][k] == offs[k + 1];
      SpansConcat(b, offs[1..], spans[1..]);
      assert b[offs[0]..offs[1]] + b[offs[1]..offs[|spans|]] == b[offs[0]..offs[|spans|]];
    }
  }

  /** With at least one texture, the PNGs together are exactly the view from the
      first PNG offset to its end: no byte is lost or used twice. */
  lemma PngsCoverTail(view: PosSlice, hs: seq<Header>)
    requires SpansInView(view, hs) && |hs| > 0
    ensures hs[0].pngOffset - view.pos <= view.Len()
    ensures Concat(Pngs(view, hs)) == view.Bytes()[hs[0].pngOffset - view.pos..]
  {
    var offs := PngOffsets(view, hs);
    assert offs[0] <= offs[1];
    SpansConcat(view.Bytes(), offs, Pngs(view, hs));
  }

  /** `Txtr::take` does not panic: the header table is safe and, when it decodes,
      every PNG span is a valid slice. */
  ghost predicate TxtrSafe(input: PosSlice) {
    && TableSafe(input, TakeHeader)
    && var h := TakeTable(input, TakeHeader, 0);
       h.Done? ==> SpansInView(h.rest, h.value.records)
  }

  /** `Txtr::take`: the header table, then each texture's PNG cut from the view
      after the pointer list; `locations` are those of the header pointers. */
  function Take(input: PosSlice): (r: Parsed<Txtr>)
    requires TxtrSafe(input)
    ensures r.Done? <==> TakeTable(input, TakeHeader, 0).Done?
    ensures !r.Done? ==> r == TakeTable(input, TakeHeader, 0).PropagateFailure()
    ensures r.Done? ==>
      var h := TakeTable(input, TakeHeader, 0);
      var offs := PngOffsets(h.rest, h.value.records);
      && r.rest == h.rest
      && r.value.locations == h.value.locations
      && |r.value.records| == |h.value.records|
      && WellFormed(r.value)
      && forall k :: 0 <= k < |r.value.records| ==>
           r.value.records[k] == TxtrEntry(h.value.records[k].unk1, h.value.records[k].unk2, h.rest.Bytes()[offs[k]..offs[k + 1]])
    ensures !r.Incomplete?
  {
    var h := TakeTable(input, TakeHeader, 0);
    if !h.Done? then h.PropagateFailure()
    else
      var es := Entries(h.rest, h.value.records);
      assert WellFormed(Table(es, h.value.locations)) by {
        assert WellFormed(h.value);
      }
      Done(h.rest, Table(es, h.value.locations))
  }

  /** `Txtr::get(loc)`: the PNG of the texture at `locations[loc]`, or `None`. */
  function GetPng(t: Txtr, loc: uint32): (r: Option<seq<uint8>>)
    requires WellFormed(t)
    ensures r.Some? <==> loc in t.locations
    ensures r.Some? ==> r.value == t.records[t.locations[loc]].png
  {
    match Get(t, loc)
    case Some(entry) => Some(entry.png)
    case None => None
  }

  /** A PNG lookup after `take` finds the bytes between the offset stored at the
      last header pointer equal to `loc` and the next texture's offset. */
  lemma GetPngAfterTake(input: PosSlice, loc: uint32)
    requires TxtrSafe(input) && Take(input).Done?
    ensures
      var h := TakeTable(input, TakeHeader, 0);
      var pl := PointerList(input);
      var t := Take(input).value;
      var offs := PngOffsets(h.rest, h.value.records);
      && (GetPng(t, loc).None? <==> loc !in pl.value)
      && (GetPng(t, loc).Some? ==>
          var j := t.locations[loc];
          && IsLastKeyIndex(pl.value, 0, loc, j)
          && GetPng(t, loc).value == h.rest.Bytes()[offs[j]..offs[j + 1]]
          && offs[j] == TakeHeader(Target(pl.rest, pl.value[j])).value.pngOffset - pl.rest.pos)
  {
    var h := TakeTable(input, TakeHeader, 0);
    GetAfterTake(input, TakeHeader, 0, loc);
    ZeroShiftKeys(PointerList(input).value, loc);
  }
}
