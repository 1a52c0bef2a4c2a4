/** The section dispatcher of `define_sections!` and `take_data_win_file`: each
    framed chunk is tried against the registered magics in order, and a chunk that
    no registered decoder accepts is kept opaque. */
module Sections {
  import opened BoundedInts
  import opened Nom
  import opened TrackSlice
  import opened ByteParsers
  import opened SectionHeader
  import opened IndirectTable
  import Gen8Section
  import StrgSection
  import SondSection
  import AudoSection
  import TxtrSection
  import TpagSection
  import SprtSection
  import FontSection

  /** `Section`: one decoded chunk, or an `Unk` chunk with its tag and payload
      bytes (the tag is kept as bytes rather than as a UTF-8 string). */
  datatype Section =
    | Gen8(gen8: Gen8Section.Gen8)
    | Strg(strg: StrgSection.Strg)
    | Sond(sond: SondSection.Sond)
    | Audo(audo: AudoSection.Audo)
    | Txtr(txtr: TxtrSection.Txtr)
    | Tpag(tpag: TpagSection.Tpag)
    | Sprt(sprt: SprtSection.Sprt)
    | Font(font: FontSection.Font)
    | Unk(name: seq<uint8>, data: seq<uint8>)

  const GEN8: seq<uint8> := [0x47, 0x45, 0x4E, 0x38]
  const STRG: seq<uint8> := [0x53, 0x54, 0x52, 0x47]
  const SOND: seq<uint8> := [0x53, 0x4F, 0x4E, 0x44]
  const AUDO: seq<uint8> := [0x41, 0x55, 0x44, 0x4F]
  const TXTR: seq<uint8> := [0x54, 0x58, 0x54, 0x52]
  const TPAG: seq<uint8> := [0x54, 0x50, 0x41, 0x47]
  const SPRT: seq<uint8> := [0x53, 0x50, 0x52, 0x54]
  const FONT: seq<uint8> := [0x46, 0x4F, 0x4E, 0x54]
  const FORM: seq<uint8> := [0x46, 0x4F, 0x52, 0x4D]

  /** The registered magics, in the order `Section::take` tries them. */
  const REGISTRY: seq<seq<uint8>> := [GEN8, STRG, SOND, AUDO, TXTR, TPAG, SPRT, FONT]

  /** No two registered magics are equal, and each is four bytes. */
  lemma RegistryDistinct()
    ensures forall k :: 0 <= k < |REGISTRY| ==> |REGISTRY[k]| == 4
    ensures forall j, k :: 0 <= j < k < |REGISTRY| ==> REGISTRY[j] != REGISTRY[k]
  {
  }

  /** A success consumed exactly one framed chunk: its rest is what follows the
      declared payload. */
  predicate Progress(i: PosSlice, r: Parsed<Section>) {
    r.Done? ==> Framed(i) && r.rest == After(i)
  }

  /** The contract every `_xxx` function keeps: another tag fails with `Tag`, a
      success consumes its chunk, and nothing asks for more input. */
  predicate KnownContract(magic: seq<uint8>, i: PosSlice, r: Parsed<Section>) {
    && (!StartsWith(i, magic) ==> r == Error(i, Tag))
    && Progress(i, r)
    && !r.Incomplete?
  }

  /** `_gen8`: the chunk framed with `GEN8`, then `Gen8::take` on its payload,
      whose own rest is dropped; the section is that decoder's value and the
      rest is the one after the chunk. */
  function TakeGen8(i: PosSlice): (r: Parsed<Section>)
    requires StartsWith(i, GEN8) && Framed(i) ==> Gen8Section.TakeSafe(Payload(i))
    ensures KnownContract(GEN8, i, r)
    ensures StartsWith(i, GEN8) && Framed(i) ==>
      && (r.Done? <==> Gen8Section.Take(Payload(i)).Done?)
      && (r.Done? ==> r.value == Gen8(Gen8Section.Take(Payload(i)).value))
  {
    TakeSectionFrames(GEN8, i);
    var p :- TakeSection(GEN8, i);
    var (remains, body) := p;
    var s :- Gen8Section.Take(body);
    var (_, section) := s;
    Done(remains, Gen8(section))
  }

  /** `_strg`: the chunk framed with `STRG`, then `Strg::take` on its payload,
      whose own rest is dropped; the section is that decoder's value and the
      rest is the one after the chunk. */
  function TakeStrg(i: PosSlice): (r: Parsed<Section>)
    requires StartsWith(i, STRG) && Framed(i) ==> TableSafe(Payload(i), LengthPrefixed)
    ensures KnownContract(STRG, i, r)
    ensures StartsWith(i, STRG) && Framed(i) ==>
      && (r.Done? <==> StrgSection.Take(Payload(i)).Done?)
      && (r.Done? ==> r.value == Strg(StrgSection.Take(Payload(i)).value))
  {
    TakeSectionFrames(STRG, i);
    var p :- TakeSection(STRG, i);
    var (remains, body) := p;
    var s :- StrgSection.Take(body);
    var (_, section) := s;
    Done(remains, Strg(section))
  }

  /** `_sond`: the chunk framed with `SOND`, then `Sond::take` on its payload,
      whose own rest is dropped; the section is that decoder's value and the
      rest is the one after the chunk. */
  function TakeSond(i: PosSlice): (r: Parsed<Section>)
    requires StartsWith(i, SOND) && Framed(i) ==> TableSafe(Payload(i), SondSection.TakeEntry)
    ensures KnownContract(SOND, i, r)
    ensures StartsWith(i, SOND) && Framed(i) ==>
      && (r.Done? <==> SondSection.Take(Payload(i)).Done?)
      && (r.Done? ==> r.value == Sond(SondSection.Take(Payload(i)).value))
  {
    TakeSectionFrames(SOND, i);
    var p :- TakeSection(SOND, i);
    var (remains, body) := p;
    var s :- SondSection.Take(body);
    var (_, section) := s;
    Done(remains, Sond(section))
  }

  /** `_audo`: the chunk framed with `AUDO`, then `Audo::take` on its payload,
      whose own rest is dropped; the section is that decoder's value and the
      rest is the one after the chunk. */
  function TakeAudo(i: PosSlice): (r: Parsed<Section>)
    requires StartsWith(i, AUDO) && Framed(i) ==> TableSafe(Payload(i), AudoSection.TakeAudoEntry)
    ensures KnownContract(AUDO, i, r)
    ensures StartsWith(i, AUDO) && Framed(i) ==>
      && (r.Done? <==> AudoSection.Take(Payload(i)).Done?)
      && (r.Done? ==> r.value == Audo(AudoSection.Take(Payload(i)).value))
  {
    TakeSectionFrames(AUDO, i);
    var p :- TakeSection(AUDO, i);
    var (remains, body) := p;
    var s :- AudoSection.Take(body);
    var (_, section) := s;
    Done(remains, Audo(section))
  }

  /** `_txtr`: the chunk framed with `TXTR`, then `Txtr::take` on its payload,
      whose own rest is dropped; the section is that decoder's value and the
      rest is the one after the chunk. */
  function TakeTxtr(i: PosSlice): (r: Parsed<Section>)
    requires StartsWith(i, TXTR) && Framed(i) ==> TxtrSection.TxtrSafe(Payload(i))
    ensures KnownContract(TXTR, i, r)
    ensures StartsWith(i, TXTR) && Framed(i) ==>
      && (r.Done? <==> TxtrSection.Take(Payload(i)).Done?)
      && (r.Done? ==> r.value == Txtr(TxtrSection.Take(Payload(i)).value))
  {
    TakeSectionFrames(TXTR, i);
    var p :- TakeSection(TXTR, i);
    var (remains, body) := p;
    var s :- TxtrSection.Take(body);
    var (_, section) := s;
    Done(remains, Txtr(section))
  }

  /** `_tpag`: the chunk framed with `TPAG`, then `Tpag::take` on its payload,
      whose own rest is dropped; the section is that decoder's value and the
      rest is the one after the chunk. */
  function TakeTpag(i: PosSlice): (r: Parsed<Section>)
    requires StartsWith(i, TPAG) && Framed(i) ==> TableSafe(Payload(i), TpagSection.TakeEntry)
    ensures KnownContract(TPAG, i, r)
    ensures StartsWith(i, TPAG) && Framed(i) ==>
      && (r.Done? <==> TpagSection.Take(Payload(i)).Done?)
      && (r.Done? ==> r.value == Tpag(TpagSection.Take(Payload(i)).value))
  {
    TakeSectionFrames(TPAG, i);
    var p :- TakeSection(TPAG, i);
    var (remains, body) := p;
    var s :- TpagSection.Take(body);
    var (_, section) := s;
    Done(remains, Tpag(section))
  }

  /** `_sprt`: the chunk framed with `SPRT`, then `Sprt::take` on its payload,
      whose own rest is dropped; the section is that decoder's value and the
      rest is the one after the chunk. */
  function TakeSprt(i: PosSlice): (r: Parsed<Section>)
    requires StartsWith(i, SPRT) && Framed(i) ==> TableSafe(Payload(i), SprtSection.TakeEntry)
    ensures KnownContract(SPRT, i, r)
    ensures StartsWith(i, SPRT) && Framed(i) ==>
      && (r.Done? <==> SprtSection.Take(Payload(i)).Done?)
      && (r.Done? ==> r.value == Sprt(SprtSection.Take(Payload(i)).value))
  {
    TakeSectionFrames(SPRT, i);
    var p :- TakeSection(SPRT, i);
    var (remains, body) := p;
    var s :- SprtSection.Take(body);
    var (_, section) := s;
    Done(remains, Sprt(section))
  }

  /** `_font`: the chunk framed with `FONT`, then `Font::take` on its payload,
      whose own rest is dropped; the section is that decoder's value and the
      rest is the one after the chunk. */
  function TakeFont(i: PosSlice): (r: Parsed<Section>)
    requires StartsWith(i, FONT) && Framed(i) ==> TableSafe(Payload(i), FontSection.TakeFontEntry)
    ensures KnownContract(FONT, i, r)
    ensures StartsWith(i, FONT) && Framed(i) ==>
      && (r.Done? <==> FontSection.Take(Payload(i)).Done?)
      && (r.Done? ==> r.value == Font(FontSection.Take(Payload(i)).value))
  {
    TakeSectionFrames(FONT, i);
    var p :- TakeSection(FONT, i);
    var (remains, body) := p;
    var s :- FontSection.Take(body);
    var (_, section) := s;
    Done(remains, Font(section))
  }

  /** No registered section's decoder panics on this chunk. */
  ghost predicate SectionSafe(i: PosSlice) {
    && (StartsWith(i, GEN8) && Framed(i) ==> Gen8Section.TakeSafe(Payload(i)))
    && (StartsWith(i, STRG) && Framed(i) ==> TableSafe(Payload(i), LengthPrefixed))
    && (StartsWith(i, SOND) && Framed(i) ==> TableSafe(Payload(i), SondSection.TakeEntry))
    && (StartsWith(i, AUDO) && Framed(i) ==> TableSafe(Payload(i), AudoSection.TakeAudoEntry))
    && (StartsWith(i, TXTR) && Framed(i) ==> TxtrSection.TxtrSafe(Payload(i)))
    && (StartsWith(i, TPAG) && Framed(i) ==> TableSafe(Payload(i), TpagSection.TakeEntry))
    && (StartsWith(i, SPRT) && Framed(i) ==> TableSafe(Payload(i), SprtSection.TakeEntry))
    && (StartsWith(i, FONT) && Framed(i) ==> TableSafe(Payload(i), FontSection.TakeFontEntry))
  }

  /** The `_xxx` function of the `k`-th registered magic. */
  function KnownTake(i: PosSlice, k: nat): (r: Parsed<Section>)
    requires k < |REGISTRY| && SectionSafe(i)
    ensures KnownContract(REGISTRY[k], i, r)
  {
    if k == 0 then TakeGen8(i)
    else if k == 1 then TakeStrg(i)
    else if k == 2 then TakeSond(i)
    else if k == 3 then TakeAudo(i)
    else if k == 4 then TakeTxtr(i)
    else if k == 5 then TakeTpag(i)
    else if k == 6 then TakeSprt(i)
    else TakeFont(i)
  }

  /** `_take_unk`: any four tag bytes, a `u32` size, then exactly that many bytes;
      each of the three reads reports its own `Eof`. */
  function TakeUnk(i: PosSlice): (r: Parsed<Section>)
    ensures r.Done? <==> Framed(i)
    ensures r.Done? ==> r.rest == After(i) && r.value == Unk(i.Bytes()[..4], Payload(i).Bytes())
    ensures i.Len() < 4 ==> r == Error(i, Eof)
    ensures 4 <= i.Len() < 8 ==> r == Error(i.Offset(4), Eof)
    ensures i.Len() >= 8 && !r.Done? ==> r == Error(i.Offset(8), Eof)
  {
    var a :- TakeBytes(4, i);
    var (afterName, name) := a;
    WordAfter(i, 1);
    var b :- LeU32(afterName);
    var (afterSize, size) := b;
    var c :- TakeBytes(size, afterSize);
    var (rest, data) := c;
    SliceBytes(i, 0, 4);
    Done(rest, Unk(name.Bytes(), data.Bytes()))
  }

  /** An `Unk` chunk is framed exactly like a known one: with the tag it starts
      with, `take_section` accepts it exactly when `_take_unk` does, and the
      payload and rest agree. */
  lemma TakeUnkFrames(magic: seq<uint8>, i: PosSlice)
    requires |magic| == 4 && StartsWith(i, magic)
    ensures TakeUnk(i).Done? <==> TakeSection(magic, i).Done?
    ensures TakeUnk(i).Done? ==>
      && TakeUnk(i).rest == TakeSection(magic, i).rest
      && TakeUnk(i).value == Unk(magic, TakeSection(magic, i).value.Bytes())
  {
    TakeSectionFrames(magic, i);
  }

  /** `alt((_gen8, _strg, …, _font, _take_unk))` from the `k`-th alternative on. */
  function TakeFrom(i: PosSlice, k: nat): (r: Parsed<Section>)
    requires k <= |REGISTRY| && SectionSafe(i)
    ensures Progress(i, r) && !r.Incomplete?
    decreases |REGISTRY| - k
  {
    if k == |REGISTRY| then TakeUnk(i) else Alt(KnownTake(i, k), TakeFrom(i, k + 1))
  }

  /** `Section::take`. A success consumes one whole framed chunk, so its rest
      comes at least eight bytes further on; it never asks for more input. */
  function Take(i: PosSlice): (r: Parsed<Section>)
    requires SectionSafe(i)
    ensures Progress(i, r) && !r.Incomplete?
  {
    TakeFrom(i, 0)
  }

  /** A chunk whose tag is none of the registered magics is taken as `Unk`. */
  lemma UnknownMagicIsUnk(i: PosSlice)
    requires SectionSafe(i)
    requires forall k :: 0 <= k < |REGISTRY| ==> !StartsWith(i, REGISTRY[k])
    ensures Take(i) == TakeUnk(i)
  {
    UnknownFrom(i, 0);
  }

  lemma {:induction false} UnknownFrom(i: PosSlice, k: nat)
    requires k <= |REGISTRY| && SectionSafe(i)
    requires forall j :: k <= j < |REGISTRY| ==> !StartsWith(i, REGISTRY[j])
    ensures TakeFrom(i, k) == TakeUnk(i)
    decreases |REGISTRY| - k
  {
    if k < |REGISTRY| {
      UnknownFrom(i, k + 1);
    }
  }

  /** A chunk tagged with the `k`-th registered magic is taken by that section's
      decoder when its payload decodes, and falls through to `Unk` when the
      payload fails with an error. */
  lemma KnownMagicDispatch(i: PosSlice, k: nat)
    requires k < |REGISTRY| && SectionSafe(i) && StartsWith(i, REGISTRY[k])
    ensures KnownTake(i, k).Done? ==> Take(i) == KnownTake(i, k)
    ensures KnownTake(i, k).Error? ==> Take(i) == TakeUnk(i)
  {
    RegistryDistinct();
    forall j | 0 <= j < |REGISTRY| && j != k
      ensures !StartsWith(i, REGISTRY[j])
    {
      assert i.Bytes()[..4] == REGISTRY[k];
    }
    EarlierMissFrom(i, k, 0);
    UnknownFrom(i, k + 1);
  }

  lemma {:induction false} EarlierMissFrom(i: PosSlice, k: nat, j: nat)
    requires j <= k < |REGISTRY| && SectionSafe(i)
    requires forall m :: j <= m < k ==> !StartsWith(i, REGISTRY[m])
    ensures TakeFrom(i, j) == TakeFrom(i, k)
    decreases k - j
  {
    if j < k {
      EarlierMissFrom(i, k, j + 1);
    }
  }

  /** `many0(Section::take)` can only stop at a chunk that has no safe successor
      when every chunk it reaches is safe to decode. */
  ghost predicate SectionsSafe(i: PosSlice)
    decreases i.Len()
  {
    SectionSafe(i) && (Take(i).Done? ==> SectionsSafe(Take(i).rest))
  }

  /** `many0(Section::take)`: sections are collected until one fails with an
      `Error`; a success that consumed nothing would fail with `Many0`, which a
      framed chunk never does. */
  function Many0Sections(i: PosSlice): (r: Parsed<seq<Section>>)
    requires SectionsSafe(i)
    ensures r.Done?
    ensures r.rest.Len() + 8 * |r.value| <= i.Len() && r.rest == i.Offset(i.Len() - r.rest.Len())
    ensures SectionSafe(r.rest) && Take(r.rest).Error?
    ensures |r.value| > 0 <==> Take(i).Done?
    ensures |r.value| > 0 ==> r.value[0] == Take(i).value
    decreases i.Len()
  {
    var s := Take(i);
    if s.Error? then
      Done(i, [])
    else if s.rest.Equals(i) then
      assert false;
      Error(i, Many0)
    else
      var more := Many0Sections(s.rest);
      OffsetOffset(i, i.Len() - s.rest.Len(), s.rest.Len() - more.rest.Len());
      Done(more.rest, [s.value] + more.value)
  }

  /** The chunk `many0` reaches after `k` sections: `Section::take`'s rest taken
      `k` times, stopping early at a chunk that does not decode. */
  ghost function ChunkAt(i: PosSlice, k: nat): (r: PosSlice)
    requires SectionsSafe(i)
    ensures SectionsSafe(r)
    decreases k
  {
    if k == 0 || !Take(i).Done? then i else ChunkAt(Take(i).rest, k - 1)
  }

  /** After `k` sections, `many0` goes on exactly as it would from the chunk it
      has reached. */
  lemma {:induction false} Many0Suffix(i: PosSlice, k: nat)
    requires SectionsSafe(i) && k <= |Many0Sections(i).value|
    ensures Many0Sections(i).value[k..] == Many0Sections(ChunkAt(i, k)).value
    decreases k
  {
    if k > 0 {
      var x, next, m := Many0Step(i, k);
      Many0Suffix(next, m);
    }
  }

  /** ... and ends with the same remainder as it would from there. */
  lemma {:induction false} Many0SuffixRest(i: PosSlice, k: nat)
    requires SectionsSafe(i) && k <= |Many0Sections(i).value|
    ensures Many0Sections(i).rest == Many0Sections(ChunkAt(i, k)).rest
    decreases k
  {
    if k > 0 {
      var _, next, m := Many0Step(i, k);
      Many0SuffixRest(next, m);
    }
  }

  /** One unfolding of `many0` on an input it collects a section from: the
      section `x` and the chunk `next` that `Section::take` gives, with
      `m == k - 1` of the `k` sections still to go. */
  lemma Many0Step(i: PosSlice, k: nat) returns (x: Section, next: PosSlice, m: nat)
    requires SectionsSafe(i) && 0 < k <= |Many0Sections(i).value|
    ensures SectionsSafe(next) && m + 1 == k && m <= |Many0Sections(next).value|
    ensures Many0Sections(i).value == [x] + Many0Sections(next).value
    ensures Many0Sections(i).value[k..] == Many0Sections(next).value[m..]
    ensures Many0Sections(i).rest == Many0Sections(next).rest
    ensures ChunkAt(i, k) == ChunkAt(next, m)
  {
    assert !Take(i).rest.Equals(i);
    x, next, m := Take(i).value, Take(i).rest, k - 1;
    DropCons(Many0Sections(i).value, x, Many0Sections(next).value, k);
  }

  /** Dropping `k` elements of `[x] + more` drops `k - 1` of `more`. */
  lemma DropCons<T>(v: seq<T>, x: T, more: seq<T>, k: nat)
    requires v == [x] + more && 0 < k <= |v|
    ensures v[k..] == more[k - 1..]
  {
  }

  /** Section `k` collected by `many0` is `Section::take` of the `k`-th chunk, and
      the collection stops at the first chunk that fails with an `Error`. */
  lemma Many0Elements(i: PosSlice)
    requires SectionsSafe(i)
    ensures forall k :: 0 <= k < |Many0Sections(i).value| ==>
      Take(ChunkAt(i, k)).Done? && Many0Sections(i).value[k] == Take(ChunkAt(i, k)).value
    ensures Take(ChunkAt(i, |Many0Sections(i).value|)).Error?
    ensures Many0Sections(i).rest == ChunkAt(i, |Many0Sections(i).value|)
  {
    var v := Many0Sections(i).value;
    forall k | 0 <= k < |v|
      ensures Take(ChunkAt(i, k)).Done? && v[k] == Take(ChunkAt(i, k)).value
    {
      Many0Suffix(i, k);
      assert v[k] == v[k..][0];
    }
    Many0Suffix(i, |v|);
    Many0SuffixRest(i, |v|);
    assert v[|v|..] == [];
  }

  /** A payload view with its own bytes as the whole buffer. A `PosSlice` is
      just a position and a byte slice, so this is the same value; it forgets
      only which larger buffer held the slice. */
  function Rebase(v: PosSlice): (r: PosSlice)
    ensures r.Pos() == v.Pos() && r.Bytes() == v.Bytes() && r.Equals(v)
  {
    New(v.pos, v.Bytes())
  }

  /** The `FORM` payload of a file whose `take_section(b"FORM")` succeeds. */
  function FormBody(file: seq<uint8>): (r: PosSlice)
    requires TakeSection(FORM, FromSlice(file)).Done?
    ensures r.Pos() == 8 && r.Bytes() == Payload(FromSlice(file)).Bytes()
  {
    TakeSectionFrames(FORM, FromSlice(file));
    Rebase(TakeSection(FORM, FromSlice(file)).value)
  }

  /** `take_data_win_file` does not panic: the file is one `FORM` chunk and every
      section reached in it is safe. */
  ghost predicate FileSafe(file: seq<uint8>) {
    TakeSection(FORM, FromSlice(file)).Done? && SectionsSafe(FormBody(file))
  }

  /** `take_data_win_file`: the sections of the `FORM` payload, up to the first
      chunk that no decoder takes; section `k` is `Section::take` of the `k`-th
      chunk, and each takes at least its eight header bytes. */
  function TakeDataWinFile(file: seq<uint8>): (r: seq<Section>)
    requires FileSafe(file)
    ensures |r| * 8 <= WordAt(FromSlice(file), 1)
    ensures forall k :: 0 <= k < |r| ==>
      Take(ChunkAt(FormBody(file), k)).Done? && r[k] == Take(ChunkAt(FormBody(file), k)).value
    ensures Take(ChunkAt(FormBody(file), |r|)).Error?
  {
    TakeSectionFrames(FORM, FromSlice(file));
    Many0Elements(FormBody(file));
    Many0Sections(FormBody(file)).value
  }

  /** The `FORM` payload of a file does not depend on bytes after its end. */
  lemma FormBodyExtends(file: seq<uint8>, extra: seq<uint8>)
    requires TakeSection(FORM, FromSlice(file)).Done?
    ensures TakeSection(FORM, FromSlice(file + extra)).Done?
    ensures FormBody(file + extra) == FormBody(file)
  {
    var v := FromSlice(file);
    var w := FromSlice(file + extra);
    assert w.Bytes()[..v.Len()] == v.Bytes();
    TakeSectionFrames(FORM, v);
    FramedPrefix(v, w);
    TakeSectionFrames(FORM, w);
  }

  /** Bytes after the declared `FORM` length do not change the sections. */
  lemma TrailingBytesIgnored(file: seq<uint8>, extra: seq<uint8>)
    requires FileSafe(file)
    ensures FileSafe(file + extra)
    ensures TakeDataWinFile(file + extra) == TakeDataWinFile(file)
  {
    FormBodyExtends(file, extra);
  }
}
