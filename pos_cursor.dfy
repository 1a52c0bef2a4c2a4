/** `PosCursor`: a seekable reader over a tracked view whose seek positions are
    absolute file positions, and `ptr_list`, the pointer-list reader of the
    binary-record decoders built on it. */
module Cursor {
  import opened BoundedInts
  import opened Wrappers
  import opened TrackSlice
  import opened ByteParsers

  /** `io::SeekFrom`. */
  datatype SeekFrom = Start(offset: uint64) | Current(delta: int64) | End(delta: int64)

  /** The state of a `PosCursor`: the position of the view it was made from,
      the view's bytes, and the offset of the inner `Cursor` into them. */
  datatype Cur = Cur(base: nat, data: seq<uint8>, inner: nat)

  /** The state of `PosCursor::from(v)`: based at the view's position, at its
      first byte. */
  function Opened(v: PosSlice): Cur {
    Cur(v.Pos(), v.Bytes(), 0)
  }

  /** A record reader on the cursor: the value read and the new inner offset,
      or nothing when one of its reads or seeks failed. */
  type Reader<T> = Cur -> Option<(T, nat)>

  /** `seek` does not panic: `SeekFrom::End` is `unimplemented!()`, and the
      addition of the base to the inner cursor's new offset must not overflow
      `u64` (the offset a `Start` seek returns is the one it was given). */
  predicate SeekSafe(c: Cur, whence: SeekFrom) {
    && !whence.End?
    && (whence.Current? && 0 <= c.inner + whence.delta < TWO_TO_THE_64 ==>
          c.base + c.inner + whence.delta < TWO_TO_THE_64)
  }

  /** `PosCursor::seek`: the position it reports and the new inner offset. A
      `Start` position before the base is an error, as is a `Current` move
      outside the inner cursor's `u64` range; an error moves nothing. */
  function SeekTo(c: Cur, whence: SeekFrom): (r: Option<(nat, nat)>)
    requires SeekSafe(c, whence)
    ensures whence.Start? ==> (r.Some? <==> whence.offset >= c.base)
    ensures whence.Start? && r.Some? ==> r.value == (whence.offset, whence.offset - c.base)
    ensures whence.Current? ==> (r.Some? <==> 0 <= c.inner + whence.delta < TWO_TO_THE_64)
    ensures r.Some? ==> r.value.0 == c.base + r.value.1
  {
    match whence
    case Start(p) =>
      if p < c.base then None
      else
        var inner := p - c.base;
        Some((inner + c.base, inner))
    case Current(d) =>
      var inner := c.inner + d;
      if 0 <= inner < TWO_TO_THE_64 then Some((inner + c.base, inner)) else None
  }

  /** `read_exact(n)`: the next `n` bytes, or an error when fewer remain.
      Reading nothing succeeds wherever the cursor is. */
  function ReadBytes(c: Cur, n: nat): (r: Option<(seq<uint8>, nat)>)
    ensures r.Some? <==> n == 0 || c.inner + n <= |c.data|
    ensures r.Some? ==>
      && r.value.1 == c.inner + n && |r.value.0| == n
      && forall k :: 0 <= k < n ==> r.value.0[k] == c.data[c.inner + k]
  {
    if n == 0 then Some(([], c.inner))
    else if c.inner + n <= |c.data| then Some((c.data[c.inner..c.inner + n], c.inner + n))
    else None
  }

  /** The number whose four little-endian bytes are `b`. */
  function FromLeBytes(b: seq<uint8>): uint32
    requires |b| == 4
  {
    b[0] as int + 0x100 * b[1] as int + 0x1_0000 * b[2] as int + 0x100_0000 * b[3] as int
  }

  /** binrw's little-endian `u32`: four bytes, least significant first. */
  function ReadWord(c: Cur): (r: Option<(uint32, nat)>)
    ensures r.Some? <==> c.inner + 4 <= |c.data|
    ensures r.Some? ==> r.value == (U32At(c.data, c.inner), c.inner + 4)
  {
    var bs :- ReadBytes(c, 4);
    LeNum4(c.data, c.inner);
    Some((FromLeBytes(bs.0), bs.1))
  }

  /** A `Vec<u32>` of `n` words, read one after the other; no words read
      wherever the cursor is. */
  function ReadWords(c: Cur, n: nat): (r: Option<(seq<uint32>, nat)>)
    ensures r.Some? <==> n == 0 || c.inner + 4 * n <= |c.data|
    ensures r.Some? ==>
      && r.value.1 == c.inner + 4 * n
      && |r.value.0| == n
      && forall k :: 0 <= k < n ==> r.value.0[k] == U32At(c.data, c.inner + 4 * k)
    decreases n
  {
    if n == 0 then Some(([], c.inner))
    else
      var w :- ReadWord(c);
      var more :- ReadWords(c.(inner := w.1), n - 1);
      Some(([w.0] + more.0, more.1))
  }

  /** The record at absolute position `p` can be reached and read. */
  predicate Resolves<T>(c: Cur, p: uint32, read: Reader<T>) {
    p >= c.base && read(Cur(c.base, c.data, p - c.base)).Some?
  }

  /** What `read` gives after a seek to absolute position `p`. */
  function ReadAt<T>(c: Cur, p: uint32, read: Reader<T>): Option<(T, nat)>
    requires p >= c.base
  {
    read(Cur(c.base, c.data, p - c.base))
  }

  /** The loop of `ptr_list`: for each pointer in turn, seek to it and read one
      record; the first failing seek or read fails the whole list. Since every
      seek is absolute, each record is the one at its own pointer, whatever
      was read before it. */
  function ReadEach<T>(c: Cur, ptrs: seq<uint32>, read: Reader<T>): (r: Option<(seq<T>, nat)>)
    ensures r.Some? <==> forall k :: 0 <= k < |ptrs| ==> Resolves(c, ptrs[k], read)
    ensures r.Some? ==>
      && |r.value.0| == |ptrs|
      && forall k :: 0 <= k < |ptrs| ==> r.value.0[k] == ReadAt(c, ptrs[k], read).value.0
    ensures r.Some? && |ptrs| > 0 ==> r.value.1 == ReadAt(c, ptrs[|ptrs| - 1], read).value.1
    ensures r.Some? && |ptrs| == 0 ==> r.value.1 == c.inner
    decreases |ptrs|
  {
    if |ptrs| == 0 then Some(([], c.inner))
    else
      var n := |ptrs| - 1;
      var done :- ReadEach(c, ptrs[..n], read);
      var s :- SeekTo(c.(inner := done.1), Start(ptrs[n]));
      var x :- read(c.(inner := s.1));
      Some((done.0 + [x.0], x.1))
  }

  /** `ptr_list`: a `u32` count, that many `u32` pointers, then one record per
      pointer in pointer order. */
  function PtrListSpec<T>(c: Cur, read: Reader<T>): (r: Option<(seq<T>, nat)>)
  {
    var count :- ReadWord(c);
    var ptrs :- ReadWords(c.(inner := count.1), count.0);
    ReadEach(c.(inner := ptrs.1), ptrs.0, read)
  }

  /** The count and the pointers of the list at the cursor. */
  predicate HasPointers(c: Cur) {
    c.inner + 4 <= |c.data| && c.inner + 4 + 4 * U32At(c.data, c.inner) <= |c.data|
  }

  /** The pointers of the list at the cursor, after its count. */
  function Pointers(c: Cur): (r: seq<uint32>)
    requires HasPointers(c)
    ensures |r| == U32At(c.data, c.inner)
    ensures forall k :: 0 <= k < |r| ==> r[k] == U32At(c.data, c.inner + 4 + 4 * k)
  {
    var ws := ReadWords(c.(inner := c.inner + 4), U32At(c.data, c.inner)).value.0;
    assert forall k :: 0 <= k < |ws| ==> c.inner + 4 + 4 * k == (c.inner + 4) + 4 * k;
    ws
  }

  /** `ptr_list` succeeds exactly when the count and the pointers are all there
      and the record at every pointer reads; it then has one record per
      pointer, the one read at that pointer. */
  lemma PtrListReadsEach<T>(c: Cur, read: Reader<T>)
    ensures PtrListSpec(c, read).Some? <==>
      HasPointers(c) && forall k :: 0 <= k < |Pointers(c)| ==> Resolves(c, Pointers(c)[k], read)
    ensures PtrListSpec(c, read).Some? ==>
      && |PtrListSpec(c, read).value.0| == |Pointers(c)|
      && forall k :: 0 <= k < |Pointers(c)| ==>
           PtrListSpec(c, read).value.0[k] == ReadAt(c, Pointers(c)[k], read).value.0
  {
    if HasPointers(c) {
      var count := U32At(c.data, c.inner);
      assert ReadWord(c) == Some((count, c.inner + 4));
      var ws := ReadWords(c.(inner := c.inner + 4), count);
      assert ws.Some? && ws.value.0 == Pointers(c);
      var d := c.(inner := ws.value.1);
      assert PtrListSpec(c, read) == ReadEach(d, Pointers(c), read);
      if count > 0 {
        ReadEachIgnoresStart(c, d, Pointers(c), read);
      }
    }
  }

  /** Only the last record read decides where the cursor ends, so with at
      least one pointer the starting offset does not matter. */
  lemma {:induction false} ReadEachIgnoresStart<T>(c: Cur, d: Cur, ptrs: seq<uint32>, read: Reader<T>)
    requires c.base == d.base && c.data == d.data && |ptrs| > 0
    ensures ReadEach(c, ptrs, read) == ReadEach(d, ptrs, read)
    decreases |ptrs|
  {
    if |ptrs| > 1 {
      ReadEachIgnoresStart(c, d, ptrs[..|ptrs| - 1], read);
    }
  }

  /** `PosCursor`. */
  class PosCursor {
    const base: nat
    const data: seq<uint8>
    var inner: nat

    function State(): Cur
      reads this
    {
      Cur(base, data, inner)
    }

    /** `PosCursor::from(view)`: the base is the view's position, and the inner
        cursor starts at the view's first byte. */
    constructor From(v: PosSlice)
      ensures State() == Opened(v)
    {
      base, data, inner := v.Pos(), v.Bytes(), 0;
    }

    /** `seek(whence)`. */
    method Seek(whence: SeekFrom) returns (r: Option<nat>)
      requires SeekSafe(State(), whence)
      modifies this
      ensures SeekTo(old(State()), whence).Some? ==>
        r == Some(SeekTo(old(State()), whence).value.0) && inner == SeekTo(old(State()), whence).value.1
      ensures SeekTo(old(State()), whence).None? ==> r.None? && inner == old(inner)
    {
      match whence
      case Start(p) =>
        if p < base {
          return None;
        }
        inner := p - base;
        return Some(inner + base);
      case Current(d) =>
        if inner + d < 0 || inner + d >= TWO_TO_THE_64 {
          return None;
        }
        inner := inner + d;
        return Some(inner + base);
    }

    /** `read(buf)` with a buffer of `n` bytes: as many of the next `n` bytes
        as remain, possibly none. */
    method Read(n: nat) returns (bytes: seq<uint8>)
      modifies this
      ensures var avail := if old(inner) < |data| then |data| - old(inner) else 0;
        var k := if n < avail then n else avail;
        && |bytes| == k && inner == old(inner) + k
        && forall j :: 0 <= j < k ==> bytes[j] == data[old(inner) + j]
    {
      var avail := if inner < |data| then |data| - inner else 0;
      var k := if n < avail then n else avail;
      bytes := if k == 0 then [] else data[inner..inner + k];
      inner := inner + k;
    }

    /** `read_exact(n)`: `read` until `n` bytes have arrived; a read that
        returns nothing fails it, leaving the cursor where the reads stopped. */
    method ReadExact(n: nat) returns (r: Option<seq<uint8>>)
      modifies this
      ensures ReadBytes(old(State()), n).Some? ==>
        r == Some(ReadBytes(old(State()), n).value.0) && inner == old(inner) + n
      ensures ReadBytes(old(State()), n).None? ==>
        r.None? && inner == if old(inner) < |data| then |data| else old(inner)
    {
      var got: seq<uint8> := [];
      while |got| < n
        invariant |got| <= n && inner == old(inner) + |got|
        invariant |got| > 0 ==> inner <= |data|
        invariant forall j :: 0 <= j < |got| ==> got[j] == data[old(inner) + j]
        decreases n - |got|
      {
        var more := Read(n - |got|);
        if |more| == 0 {
          return None;
        }
        got := got + more;
      }
      assert got == ReadBytes(old(State()), n).value.0;
      return Some(got);
    }

    /** binrw's little-endian `u32`. */
    method ReadU32() returns (r: Option<uint32>)
      modifies this
      ensures ReadWord(old(State())).Some? ==>
        r == Some(ReadWord(old(State())).value.0) && inner == ReadWord(old(State())).value.1
      ensures ReadWord(old(State())).None? ==> r.None?
    {
      var bytes := ReadExact(4);
      if bytes.None? {
        return None;
      }
      LeNum4(data, old(inner));
      return Some(FromLeBytes(bytes.value));
    }

    /** binrw's `Vec<u32>` of `n` words. */
    method ReadU32s(n: nat) returns (r: Option<seq<uint32>>)
      modifies this
      ensures ReadWords(old(State()), n).Some? ==>
        r == Some(ReadWords(old(State()), n).value.0) && inner == ReadWords(old(State()), n).value.1
      ensures ReadWords(old(State()), n).None? ==> r.None?
    {
      var words: seq<uint32> := [];
      for k := 0 to n
        invariant inner == old(inner) + 4 * k && (k > 0 ==> inner <= |data|)
        invariant |words| == k && forall j :: 0 <= j < k ==> words[j] == U32At(data, old(inner) + 4 * j)
      {
        var w := ReadU32();
        if w.None? {
          return None;
        }
        words := words + [w.value];
      }
      assert words == ReadWords(old(State()), n).value.0;
      return Some(words);
    }

    /** `read_le()` of a binrw record with reader `read`. */
    method ReadLe<T>(read: Reader<T>) returns (r: Option<T>)
      modifies this
      ensures read(old(State())).Some? ==>
        r == Some(read(old(State())).value.0) && inner == read(old(State())).value.1
      ensures read(old(State())).None? ==> r.None? && inner == old(inner)
    {
      var x := read(State());
      if x.None? {
        return None;
      }
      inner := x.value.1;
      return Some(x.value.0);
    }
  }

  /** The loop of `ptr_list` on a cursor: a seek to each pointer and one record
      read there, stopping at the first failure. */
  method ReadRecords<T>(cursor: PosCursor, ptrs: seq<uint32>, read: Reader<T>) returns (r: Option<seq<T>>)
    modifies cursor
    ensures ReadEach(old(cursor.State()), ptrs, read).Some? ==>
      && r == Some(ReadEach(old(cursor.State()), ptrs, read).value.0)
      && cursor.inner == ReadEach(old(cursor.State()), ptrs, read).value.1
    ensures ReadEach(old(cursor.State()), ptrs, read).None? ==> r.None?
  {
    ghost var c := cursor.State();
    var values: seq<T> := [];
    for k := 0 to |ptrs|
      invariant cursor.base == c.base && cursor.data == c.data
      invariant ReadEach(c, ptrs[..k], read).Some?
      invariant values == ReadEach(c, ptrs[..k], read).value.0
      invariant cursor.inner == ReadEach(c, ptrs[..k], read).value.1
    {
      assert ptrs[..k + 1][..k] == ptrs[..k];
      var s := cursor.Seek(Start(ptrs[k]));
      if s.None? {
        assert !Resolves(c, ptrs[k], read);
        return None;
      }
      var x := cursor.ReadLe(read);
      if x.None? {
        assert !Resolves(c, ptrs[k], read);
        return None;
      }
      values := values + [x.value];
    }
    assert ptrs[..|ptrs|] == ptrs;
    return Some(values);
  }

  /** `ptr_list` on a cursor: the list `PtrListSpec` describes, and the cursor
      left after its last record. */
  method PtrList<T>(cursor: PosCursor, read: Reader<T>) returns (r: Option<seq<T>>)
    modifies cursor
    ensures PtrListSpec(old(cursor.State()), read).Some? ==>
      && r == Some(PtrListSpec(old(cursor.State()), read).value.0)
      && cursor.inner == PtrListSpec(old(cursor.State()), read).value.1
    ensures PtrListSpec(old(cursor.State()), read).None? ==> r.None?
  {
    var count := cursor.ReadU32();
    if count.None? {
      return None;
    }
    var ptrs := cursor.ReadU32s(count.value);
    if ptrs.None? {
      return None;
    }
    r := ReadRecords(cursor, ptrs.value, read);
  }
}
