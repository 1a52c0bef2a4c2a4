/** Little-endian fixed-width readers on a tracked view. Each consumes exactly its
    width from the front of the view and returns the rest, or fails with
    `Eof` at the original view when fewer bytes remain. */
module ByteParsers {
  import opened BoundedInts
  import opened Nom
  import opened TrackSlice

  type Parsed<T> = IResult<PosSlice, T>

  /** The unsigned number whose little-endian bytes are `b[lo..hi]`. It is
      defined in two steps, so that where it occurs it stays folded unless a
      proof asks for its bytes (`LeNum2`, `LeNum4`). */
  function LeNum(b: seq<uint8>, lo: nat, hi: nat): nat
    requires lo <= hi <= |b|
    decreases hi - lo, 1
  {
    if lo == hi then 0 else LeNumStep(b, lo, hi)
  }

  /** The byte at `lo` plus `0x100` times the number in the bytes after it. */
  function LeNumStep(b: seq<uint8>, lo: nat, hi: nat): nat
    requires lo < hi <= |b|
    decreases hi - lo, 0
  {
    b[lo] as int + 0x100 * LeNum(b, lo + 1, hi)
  }

  /** Two little-endian bytes, written out. */
  lemma LeNum2(b: seq<uint8>, k: nat)
    requires k + 2 <= |b|
    ensures LeNum(b, k, k + 2) == b[k] as int + 0x100 * b[k + 1] as int
  {
    assert LeNum(b, k + 2, k + 2) == 0;
    assert LeNum(b, k + 1, k + 2) == LeNumStep(b, k + 1, k + 2);
    assert LeNum(b, k, k + 2) == LeNumStep(b, k, k + 2);
  }

  /** Four little-endian bytes, written out. */
  lemma LeNum4(b: seq<uint8>, k: nat)
    requires k + 4 <= |b|
    ensures LeNum(b, k, k + 4) == b[k] as int + 0x100 * b[k + 1] as int + 0x1_0000 * b[k + 2] as int + 0x100_0000 * b[k + 3] as int
  {
    LeNum2(b, k + 2);
    assert LeNum(b, k + 1, k + 4) == LeNumStep(b, k + 1, k + 4);
    assert LeNum(b, k, k + 4) == LeNumStep(b, k, k + 4);
  }

  /** The little-endian `u16` stored at `b[k..k + 2]`. */
  function U16At(b: seq<uint8>, k: nat): uint16
    requires k + 2 <= |b|
  {
    LeNum2(b, k);
    LeNum(b, k, k + 2)
  }

  /** The little-endian `u32` stored at `b[k..k + 4]`. */
  function U32At(b: seq<uint8>, k: nat): uint32
    requires k + 4 <= |b|
  {
    LeNum4(b, k);
    LeNum(b, k, k + 4)
  }

  /** The four bytes that store `x` little-endian. */
  function LeBytes32(x: uint32): (r: seq<uint8>)
    ensures |r| == 4
  {
    [x % 0x100, (x / 0x100) % 0x100, (x / 0x1_0000) % 0x100, x / 0x100_0000]
  }

  /** The `k`-th little-endian word of the view. */
  function WordAt(v: PosSlice, k: nat): uint32
    requires 4 * k + 4 <= v.Len()
  {
    U32At(v.base, v.start + 4 * k)
  }

  /** The `k`-th little-endian half-word of the view. */
  function HalfWordAt(v: PosSlice, k: nat): uint16
    requires 2 * k + 2 <= v.Len()
  {
    U16At(v.base, v.start + 2 * k)
  }

  /** A word of the view `q` words further on is a word of the view. */
  lemma WordAtOffset(v: PosSlice, q: nat, k: nat)
    requires 4 * (q + k) + 4 <= v.Len()
    ensures WordAt(v.Offset(4 * q), k) == WordAt(v, q + k)
  {
    assert v.Offset(4 * q).start + 4 * k == v.start + 4 * (q + k);
  }

  /** A word depends only on the view's bytes: views that agree on a prefix
      agree on the words inside it. */
  lemma WordAtPrefix(v: PosSlice, w: PosSlice, k: nat)
    requires 4 * k + 4 <= v.Len() <= w.Len() && v.Bytes() == w.Bytes()[..v.Len()]
    ensures WordAt(v, k) == WordAt(w, k)
  {
    var a, b := v.start + 4 * k, w.start + 4 * k;
    LeNum4(v.base, a);
    LeNum4(w.base, b);
    assert v.Bytes()[4 * k] == w.Bytes()[4 * k];
    assert v.Bytes()[4 * k + 1] == w.Bytes()[4 * k + 1];
    assert v.Bytes()[4 * k + 2] == w.Bytes()[4 * k + 2];
    assert v.Bytes()[4 * k + 3] == w.Bytes()[4 * k + 3];
    assert v.base[a..a + 4] == w.base[b..b + 4];
  }

  /** A half-word of the view `q` half-words further on is a half-word of the view. */
  lemma HalfWordAtOffset(v: PosSlice, q: nat, k: nat)
    requires 2 * (q + k) + 2 <= v.Len()
    ensures HalfWordAt(v.Offset(2 * q), k) == HalfWordAt(v, q + k)
  {
    assert v.Offset(2 * q).start + 2 * k == v.start + 2 * (q + k);
  }

  /** `ws` are the consecutive words of the view from word `q` on. */
  predicate WordsAt(v: PosSlice, q: nat, ws: seq<uint32>)
    decreases |ws|
  {
    && 4 * (q + |ws|) <= v.Len()
    && (|ws| > 0 ==> ws[0] == WordAt(v, q) && WordsAt(v, q + 1, ws[1..]))
  }

  /** Words of the view `q` words further on are words of the view. */
  lemma {:induction false} WordsAtShift(v: PosSlice, q: nat, p: nat, ws: seq<uint32>)
    requires 4 * q <= v.Len()
    ensures WordsAt(v.Offset(4 * q), p, ws) <==> WordsAt(v, q + p, ws)
    decreases |ws|
  {
    if |ws| > 0 && 4 * (q + p + |ws|) <= v.Len() {
      WordsAtShift(v, q, p + 1, ws[1..]);
    }
  }

  /** `WordsAt` word by word: the `k`-th of `ws` is word `q + k` of the view. */
  lemma {:induction false} WordsAtIff(v: PosSlice, q: nat, ws: seq<uint32>)
    ensures WordsAt(v, q, ws) <==>
      4 * (q + |ws|) <= v.Len() && forall k :: 0 <= k < |ws| ==> ws[k] == WordAt(v, q + k)
    decreases |ws|
  {
    if |ws| > 0 {
      WordsAtIff(v, q + 1, ws[1..]);
      assert forall k :: 1 <= k < |ws| ==> ws[1..][k - 1] == ws[k];
    }
  }

  /** `le_u32`: four bytes, the first the least significant. */
  function LeU32(i: PosSlice): (r: Parsed<uint32>)
    ensures r.Done? <==> i.Len() >= 4
    ensures r.Done? ==> r.rest == i.Offset(4) && r.value == WordAt(i, 0)
    ensures !r.Done? ==> r == Error(i, Eof)
  {
    if i.Len() < 4 then Error(i, Eof)
    else Done(i.Offset(4), U32At(i.base, i.start))
  }

  /** `le_f32`: the same four bytes as `le_u32`, kept as raw bits. */
  function LeF32(i: PosSlice): (r: Parsed<Float32Bits>)
    ensures r.Done? <==> i.Len() >= 4
    ensures r.Done? ==> r.rest == i.Offset(4) && r.value == WordAt(i, 0)
    ensures !r.Done? ==> r == Error(i, Eof)
  {
    LeU32(i)
  }

  /** `le_u16`: two bytes, the first the least significant. */
  function LeU16(i: PosSlice): (r: Parsed<uint16>)
    ensures r.Done? <==> i.Len() >= 2
    ensures r.Done? ==> r.rest == i.Offset(2) && r.value == HalfWordAt(i, 0)
    ensures !r.Done? ==> r == Error(i, Eof)
  {
    if i.Len() < 2 then Error(i, Eof)
    else Done(i.Offset(2), U16At(i.base, i.start))
  }

  /** `le_u8`. */
  function LeU8(i: PosSlice): (r: Parsed<uint8>)
    ensures r.Done? <==> i.Len() >= 1
    ensures r.Done? ==> r.rest == i.Offset(1) && r.value == i.At(0)
    ensures !r.Done? ==> r == Error(i, Eof)
  {
    if i.Len() < 1 then Error(i, Eof)
    else Done(i.Offset(1), i.At(0))
  }

  /** The four bytes `LeBytes32(x)`, wherever they are stored, read back as `x`. */
  lemma LeBytes32Decodes(x: uint32, b: seq<uint8>, k: nat)
    requires k + 4 <= |b| && b[k..k + 4] == LeBytes32(x)
    ensures U32At(b, k) == x
  {
    var q1, q2, q3 := x / 0x100, x / 0x1_0000, x / 0x100_0000;
    assert x == x % 0x100 + 0x100 * q1;
    assert q1 == q1 % 0x100 + 0x100 * (q1 / 0x100);
    assert q1 / 0x100 == q2;
    assert q2 == q2 % 0x100 + 0x100 * (q2 / 0x100);
    assert q2 / 0x100 == q3;
    assert b[k] == b[k..k + 4][0] && b[k + 1] == b[k..k + 4][1] && b[k + 2] == b[k..k + 4][2] && b[k + 3] == b[k..k + 4][3];
    LeNum4(b, k);
  }

  /** Decoding the little-endian encoding of any `u32` gives it back, with the
      following bytes untouched. */
  lemma LeU32RoundTrip(x: uint32, pos: nat, tail: seq<uint8>)
    ensures
      var r := LeU32(New(pos, LeBytes32(x) + tail));
      r.Done? && r.value == x && r.rest.Equals(New(pos + 4, tail))
  {
    var i := New(pos, LeBytes32(x) + tail);
    assert i.base[0..4] == LeBytes32(x);
    LeBytes32Decodes(x, i.base, 0);
    assert i.Offset(4).Bytes() == i.base[4..|i.base|] == tail;
  }

  /** The bytes that the whole words among `n` bytes cover: where a run of word
      reads that runs out of input stops. */
  function WholeWords(n: nat): (w: nat)
    ensures w <= n
  {
    if n < 4 then 0 else 4 + WholeWords(n - 4)
  }

  /** `WholeWords(n)` is `n` rounded down to a multiple of 4. */
  lemma {:induction false} WholeWordsFloor(n: nat)
    ensures WholeWords(n) == 4 * (n / 4)
  {
    if n >= 4 {
      WholeWordsFloor(n - 4);
    }
  }

  /** Whole words after `q` whole words. */
  lemma {:induction false} WholeWordsSkip(n: nat, q: nat)
    requires 4 * q <= n
    ensures WholeWords(n) == 4 * q + WholeWords(n - 4 * q)
  {
    if q > 0 {
      WholeWordsSkip(n - 4, q - 1);
    }
  }

  /** The half-word counterpart of `WholeWords`. */
  function WholeHalfWords(n: nat): (w: nat)
    ensures w <= n
  {
    if n < 2 then 0 else 2 + WholeHalfWords(n - 2)
  }

  /** `WholeHalfWords(n)` is `n` rounded down to an even number. */
  lemma {:induction false} WholeHalfWordsFloor(n: nat)
    ensures WholeHalfWords(n) == 2 * (n / 2)
  {
    if n >= 2 {
      WholeHalfWordsFloor(n - 2);
    }
  }

  /** Whole half-words after `q` whole half-words. */
  lemma {:induction false} WholeHalfWordsSkip(n: nat, q: nat)
    requires 2 * q <= n
    ensures WholeHalfWords(n) == 2 * q + WholeHalfWords(n - 2 * q)
  {
    if q > 0 {
      WholeHalfWordsSkip(n - 2, q - 1);
    }
  }

  /** `count(le_u32, n)`: `n` consecutive words. The first read that runs out of
      input is at the last whole word boundary, and its `Eof` error is passed on. */
  function CountU32(i: PosSlice, n: nat): (r: Parsed<seq<uint32>>)
    ensures r.Done? <==> i.Len() >= 4 * n
    ensures r.Done? ==> |r.value| == n && r.rest == i.Offset(4 * n) && WordsAt(i, 0, r.value)
    ensures !r.Done? ==> r == Error(i.Offset(WholeWords(i.Len())), Eof)
    decreases n
  {
    if n == 0 then Done(i, [])
    else
      match LeU32(i)
      case Done(rest, w) =>
        (match CountU32(rest, n - 1)
         case Done(rest', ws) =>
           WordsAtShift(i, 1, 0, ws);
           assert ([w] + ws)[1..] == ws;
           Done(rest', [w] + ws)
         case Error(at, e) =>
           assert at == i.Offset(WholeWords(i.Len())) by { WholeWordsSkip(i.Len(), 1); }
           Error(at, e)
         case Incomplete(m) => Incomplete(m))
      case Error(at, e) => Error(at, e)
      case Incomplete(m) => Incomplete(m)
  }

  /** `n` consecutive `le_u16` reads, as `tuple((le_u16, ..))` performs them:
      the first read that runs out of input is at the last half-word boundary. */
  function CountU16(i: PosSlice, n: nat): (r: Parsed<seq<uint16>>)
    ensures r.Done? <==> i.Len() >= 2 * n
    ensures r.Done? ==> |r.value| == n && r.rest == i.Offset(2 * n)
    ensures r.Done? ==> forall k :: 0 <= k < n ==> r.value[k] == HalfWordAt(i, k)
    ensures !r.Done? ==> r == Error(i.Offset(WholeHalfWords(i.Len())), Eof)
    decreases n
  {
    if n == 0 then Done(i, [])
    else
      match LeU16(i)
      case Done(rest, w) =>
        (match CountU16(rest, n - 1)
         case Done(rest', ws) =>
           assert forall k :: 1 <= k < n ==> ws[k - 1] == HalfWordAt(rest, k - 1) == HalfWordAt(i, k);
           Done(rest', [w] + ws)
         case Error(at, e) =>
           assert at == i.Offset(WholeHalfWords(i.Len())) by { WholeHalfWordsSkip(i.Len(), 1); }
           Error(at, e)
         case Incomplete(m) => Incomplete(m))
      case Error(at, e) => Error(at, e)
      case Incomplete(m) => Incomplete(m)
  }

  /** Reading `m` more words after `n` words is reading words `n .. n + m` of the
      view; a failure is still at the view's last word boundary. */
  lemma CountU32Then(i: PosSlice, n: nat, m: nat)
    requires 4 * n <= i.Len()
    ensures
      var r := CountU32(i.Offset(4 * n), m);
      && (r.Done? <==> i.Len() >= 4 * (n + m))
      && (r.Done? ==> r.rest == i.Offset(4 * (n + m)))
      && (r.Done? ==> |r.value| == m && WordsAt(i, n, r.value))
      && (!r.Done? ==> r == Error(i.Offset(WholeWords(i.Len())), Eof))
  {
    var r := CountU32(i.Offset(4 * n), m);
    if r.Done? {
      WordsAtShift(i, n, 0, r.value);
    } else {
      WholeWordsSkip(i.Len(), n);
    }
  }

  /** One `le_u32` after `q` words reads word `q`; a failure is at the view's
      last word boundary. */
  lemma WordAfter(i: PosSlice, q: nat)
    requires 4 * q <= i.Len()
    ensures
      var r := LeU32(i.Offset(4 * q));
      && (r.Done? <==> i.Len() >= 4 * q + 4)
      && (r.Done? ==> r.value == WordAt(i, q) && r.rest == i.Offset(4 * q + 4))
      && (!r.Done? ==> r == Error(i.Offset(WholeWords(i.Len())), Eof))
  {
    var r := LeU32(i.Offset(4 * q));
    if !r.Done? {
      WholeWordsSkip(i.Len(), q);
    }
  }

  /** The half-word counterpart of `CountU32Then`. */
  lemma CountU16Then(i: PosSlice, n: nat, m: nat)
    requires 2 * n <= i.Len()
    ensures
      var r := CountU16(i.Offset(2 * n), m);
      && (r.Done? <==> i.Len() >= 2 * (n + m))
      && (r.Done? ==> r.rest == i.Offset(2 * (n + m)))
      && (r.Done? ==> forall k :: 0 <= k < m ==> r.value[k] == HalfWordAt(i, n + k))
      && (!r.Done? ==> r == Error(i.Offset(WholeHalfWords(i.Len())), Eof))
  {
    var r := CountU16(i.Offset(2 * n), m);
    if r.Done? {
      assert forall k :: 0 <= k < m ==> r.value[k] == HalfWordAt(i.Offset(2 * n), k) == HalfWordAt(i, n + k);
    } else {
      WholeHalfWordsSkip(i.Len(), n);
    }
  }

  /** `count(le_u8, n)`: the next `n` bytes. */
  function CountU8(i: PosSlice, n: nat): (r: Parsed<seq<uint8>>)
    ensures r.Done? <==> i.Len() >= n
    ensures r.Done? ==> r.value == i.Take(n).Bytes() && r.rest == i.Offset(n)
    ensures !r.Done? ==> r == Error(i.Offset(i.Len()), Eof)
    decreases n
  {
    if n == 0 then Done(i, [])
    else
      match LeU8(i)
      case Done(rest, b) =>
        (match CountU8(rest, n - 1)
         case Done(rest', bs) =>
           ConsBytes(i.Take(n));
           Done(rest', [b] + bs)
         case Error(at, e) => Error(at, e)
         case Incomplete(m) => Incomplete(m))
      case Error(at, e) => Error(at, e)
      case Incomplete(m) => Incomplete(m)
  }

  /** A whole length-prefixed record starts at the front of `v`. */
  predicate HasLengthPrefixed(v: PosSlice) {
    v.Len() >= 4 && v.Len() >= 4 + WordAt(v, 0)
  }

  /** The payload of the length-prefixed record at the front of `v`. */
  function LengthPrefixedBytes(v: PosSlice): (s: seq<uint8>)
    requires HasLengthPrefixed(v)
    ensures |s| == WordAt(v, 0)
  {
    v.Slice(4, 4 + WordAt(v, 0)).Bytes()
  }

  /** `le_u32` length `n`, then `count(le_u8, n)`. A short length word fails at
      the record, a short payload at the end of the view. */
  function LengthPrefixed(v: PosSlice): (r: Parsed<seq<uint8>>)
    ensures r.Done? <==> HasLengthPrefixed(v)
    ensures r.Done? ==> r.value == LengthPrefixedBytes(v) && r.rest == v.Offset(4 + |r.value|)
    ensures v.Len() < 4 ==> r == Error(v, Eof)
    ensures v.Len() >= 4 && !HasLengthPrefixed(v) ==> r == Error(v.Offset(v.Len()), Eof)
  {
    var count := LeU32(v);
    if !count.Done? then Error(v, Eof)
    else CountU8(count.rest, count.value)
  }

  /** Prefixing bytes with their length and decoding gives them back. */
  lemma LengthPrefixedRoundTrip(s: seq<uint8>, pos: nat, tail: seq<uint8>)
    requires |s| < TWO_TO_THE_32
    ensures
      var r := LengthPrefixed(New(pos, LeBytes32(|s|) + s + tail));
      r.Done? && r.value == s && r.rest.Equals(New(pos + 4 + |s|, tail))
  {
    var v := New(pos, LeBytes32(|s|) + s + tail);
    assert v.base[0..4] == LeBytes32(|s|);
    LeBytes32Decodes(|s|, v.base, 0);
    assert v.base[4..4 + |s|] == s;
    assert v.base[4 + |s|..|v.base|] == tail;
  }
}
