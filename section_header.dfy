/** Chunk framing: a magic tag, a little-endian `u32` payload length, then exactly
    that many payload bytes. Also the two nom byte combinators it is built from. */
module SectionHeader {
  import opened BoundedInts
  import opened Nom
  import opened TrackSlice
  import opened ByteParsers

  /** nom's `bytes::complete::tag(magic)`: the view must start with `magic`;
      an incomplete comparison is an error like a mismatch. */
  function TagBytes(magic: seq<uint8>, i: PosSlice): (r: Parsed<PosSlice>)
    ensures r.Done? <==> StartsWith(i, magic)
    ensures r.Done? ==> r.value == i.Take(|magic|) && r.rest == i.Offset(|magic|)
    ensures !r.Done? ==> r == Error(i, Tag)
  {
    match i.Compare(magic)
    case CompareOk =>
      var (suffix, prefix) := i.TakeSplit(|magic|);
      Done(suffix, prefix)
    case _ => Error(i, Tag)
  }

  /** The view starts with the bytes `magic`. */
  predicate StartsWith(i: PosSlice, magic: seq<uint8>) {
    i.Len() >= |magic| && i.Bytes()[..|magic|] == magic
  }

  /** nom's `bytes::complete::take(count)`: the next `count` bytes, through
      `slice_index` and `take_split`. */
  function TakeBytes(count: nat, i: PosSlice): (r: Parsed<PosSlice>)
    ensures r.Done? <==> i.Len() >= count
    ensures r.Done? ==> r.value == i.Take(count) && r.rest == i.Offset(count)
    ensures !r.Done? ==> r == Error(i, Eof)
  {
    match i.SliceIndex(count)
    case None => Error(i, Eof)
    case Some(k) =>
      var (suffix, prefix) := i.TakeSplit(k);
      Done(suffix, prefix)
  }

  /** The view starts with `magic` followed by a whole length word. */
  predicate HasHeader(magic: seq<uint8>, i: PosSlice) {
    StartsWith(i, magic) && i.Len() >= |magic| + 4
  }

  /** The length word that follows the magic. */
  function DeclaredSize(magic: seq<uint8>, i: PosSlice): uint32
    requires HasHeader(magic, i)
  {
    U32At(i.base, i.start + |magic|)
  }

  /** `take_section(magic)`: on success the value is the payload (exactly the
      declared number of bytes, positioned right after the header) and the rest is
      everything after it. Each of the three reads reports its own error. */
  function TakeSection(magic: seq<uint8>, i: PosSlice): (r: Parsed<PosSlice>)
    ensures r.Done? <==> HasHeader(magic, i) && i.Len() >= |magic| + 4 + DeclaredSize(magic, i)
    ensures r.Done? ==>
      var start := |magic| + 4;
      && r.value == i.Slice(start, start + DeclaredSize(magic, i))
      && r.rest == i.Offset(start + DeclaredSize(magic, i))
    ensures !StartsWith(i, magic) ==> r == Error(i, Tag)
    ensures StartsWith(i, magic) && !HasHeader(magic, i) ==> r == Error(i.Offset(|magic|), Eof)
    ensures HasHeader(magic, i) && i.Len() < |magic| + 4 + DeclaredSize(magic, i) ==>
      r == Error(i.Offset(|magic| + 4), Eof)
  {
    var p :- TagBytes(magic, i);
    var (afterTag, _) := p;
    var q :- LeU32(afterTag);
    var (afterSize, size) := q;
    TakeBytes(size, afterSize)
  }

  /** The view holds a whole chunk: a tag, a length word, and the payload that
      length declares. */
  predicate Framed(i: PosSlice) {
    i.Len() >= 8 && i.Len() >= 8 + WordAt(i, 1)
  }

  /** The payload of a framed chunk. */
  function Payload(i: PosSlice): (r: PosSlice)
    requires Framed(i)
    ensures r.Pos() == i.Pos() + 8 && r.Len() == WordAt(i, 1)
  {
    i.Slice(8, 8 + WordAt(i, 1))
  }

  /** Everything after a framed chunk. */
  function After(i: PosSlice): (r: PosSlice)
    requires Framed(i)
    ensures r.Pos() == i.Pos() + 8 + WordAt(i, 1) && r.Len() + 8 + WordAt(i, 1) == i.Len()
  {
    i.Offset(8 + WordAt(i, 1))
  }

  /** With a four-byte tag, `take_section` accepts exactly the framed chunks
      that start with it, and splits them into their payload and what follows. */
  lemma TakeSectionFrames(magic: seq<uint8>, i: PosSlice)
    requires |magic| == 4
    ensures TakeSection(magic, i).Done? <==> StartsWith(i, magic) && Framed(i)
    ensures TakeSection(magic, i).Done? ==>
      TakeSection(magic, i).value == Payload(i) && TakeSection(magic, i).rest == After(i)
  {
    if HasHeader(magic, i) {
      assert DeclaredSize(magic, i) == WordAt(i, 1);
    }
  }

  /** A framed chunk stays framed, with the same tag, length and payload
      bytes, when more bytes follow it. */
  lemma FramedPrefix(v: PosSlice, w: PosSlice)
    requires v.Len() <= w.Len() && v.Bytes() == w.Bytes()[..v.Len()] && Framed(v)
    ensures Framed(w) && WordAt(w, 1) == WordAt(v, 1)
    ensures w.Bytes()[..4] == v.Bytes()[..4]
    ensures Payload(w).Bytes() == Payload(v).Bytes()
  {
    WordAtPrefix(v, w, 1);
    var size: nat := WordAt(v, 1);
    SliceBytes(v, 8, 8 + size);
    SliceBytes(w, 8, 8 + size);
    assert w.Bytes()[8..8 + size] == v.Bytes()[8..8 + size];
  }

  /** The payload and the rest together are exactly the bytes after the header,
      so a section never loses or duplicates a byte. */
  lemma TakeSectionSplitsBody(magic: seq<uint8>, i: PosSlice)
    requires TakeSection(magic, i).Done?
    ensures
      var r := TakeSection(magic, i);
      && r.value.Bytes() + r.rest.Bytes() == i.Offset(|magic| + 4).Bytes()
      && r.value.pos == i.pos + |magic| + 4
      && r.rest.pos == r.value.pos + r.value.Len()
  {
    var body := i.Offset(|magic| + 4);
    TakeSplitBytes(body, DeclaredSize(magic, i));
  }

  /** Framing a payload with its magic and length gives the payload back, and
      the bytes after the frame are left untouched. */
  lemma TakeSectionRoundTrip(magic: seq<uint8>, pos: nat, body: seq<uint8>, tail: seq<uint8>)
    requires |body| < TWO_TO_THE_32
    ensures
      var r := TakeSection(magic, New(pos, magic + LeBytes32(|body|) + body + tail));
      && r.Done?
      && r.value.Equals(New(pos + |magic| + 4, body))
      && r.rest.Equals(New(pos + |magic| + 4 + |body|, tail))
  {
    var words := LeBytes32(|body|);
    var i := New(pos, magic + words + body + tail);
    assert i.Bytes()[..|magic|] == magic;
    assert i.base[|magic|..|magic| + 4] == words;
    LeBytes32Decodes(|body|, i.base, |magic|);
    var start := |magic| + 4;
    assert i.base[start..start + |body|] == body;
    assert i.base[start + |body|..|i.base|] == tail;
  }
}
