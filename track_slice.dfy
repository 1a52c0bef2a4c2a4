/** The offset-tracked byte view: a run of bytes of the archive together with the
    absolute file position of its first byte, and the input operations the
    parser combinators perform on it. */
module TrackSlice {
  import opened BoundedInts
  import opened Wrappers
  import opened Nom

  /** `PosSlice(pos, slice)`. The borrowed `slice` is the run `start..end` of the
      buffer `base` it borrows from; re-slicing keeps `base` and moves the two
      bounds, as a Rust sub-slice keeps pointing into the same memory. */
  datatype Window = Window(base: seq<uint8>, start: nat, end: nat, pos: nat)
  {
    /** The run lies inside its buffer. */
    predicate Valid() {
      start <= end <= |base|
    }

    /** `pos()`. */
    function Pos(): nat {
      pos
    }

    /** `len()`. */
    function Len(): nat
      requires Valid()
    {
      end - start
    }

    /** The bytes of the slice. */
    function Bytes(): (r: seq<uint8>)
      requires Valid()
      ensures |r| == Len()
    {
      base[start..end]
    }

    /** Byte `k` of the slice. */
    function At(k: nat): uint8
      requires Valid() && k < Len()
    {
      base[start + k]
    }

    /** The derived `PartialEq`: the same position and the same bytes. */
    predicate Equals(other: PosSlice)
      requires Valid()
    {
      pos == other.pos && Bytes() == other.Bytes()
    }

    /** `slice(start, end)`: the bytes `from..to`, positioned `from` further on. */
    function Slice(from: nat, to: nat): (r: PosSlice)
      requires Valid() && from <= to <= Len()
      ensures r.Pos() == pos + from && r.Len() == to - from
      ensures r.base == base && r.start == start + from
    {
      Window(base, start + from, start + to, pos + from)
    }

    /** `offset(off)`: every byte from `off` to the end. */
    function Offset(off: nat): (r: PosSlice)
      requires Valid() && off <= Len()
      ensures r.Pos() == pos + off && r.Len() == Len() - off
    {
      Slice(off, Len())
    }

    /** `InputIter::slice_index(count)`. */
    function SliceIndex(count: nat): (r: Option<nat>)
      requires Valid()
      ensures r.Some? <==> Len() >= count
      ensures r.Some? ==> r.value == count
    {
      if Len() >= count then Some(count) else None
    }

    /** `InputTake::take(amount)`: the first `amount` bytes. */
    function Take(amount: nat): (r: PosSlice)
      requires Valid() && amount <= Len()
      ensures r.Pos() == pos && r.Len() == amount
    {
      Slice(0, amount)
    }

    /** `InputTake::take_split(amount)`, which returns the pair (suffix, prefix):
        `split_at(amount)` of the bytes, the suffix positioned `amount` on. */
    function TakeSplit(amount: nat): (r: (PosSlice, PosSlice))
      requires Valid() && amount <= Len()
      ensures r.1.Pos() == pos && r.1.Len() == amount
      ensures r.0.Pos() == pos + amount && r.0.Len() == Len() - amount
    {
      (Window(base, start + amount, end, pos + amount), Window(base, start, start + amount, pos))
    }

    /** `split_at_position(predicate)`: split before the first byte that satisfies
        the predicate; with no such byte more input is needed. */
    function SplitAtPosition(pred: uint8 -> bool): (r: IResult<PosSlice, PosSlice>)
      requires Valid()
      ensures r.Done? <==> !NoMatch(Bytes(), pred)
      ensures r.Done? ==> IsSplitAtFirstMatch(this, pred, r.rest, r.value)
      ensures !r.Done? ==> r == Incomplete(Size(1))
    {
      match FindFirst(Bytes(), pred, 0)
      case Some(i) => Done(Offset(i), Take(i))
      case None => Incomplete(Size(1))
    }

    /** `split_at_position1(predicate, e)`: like `SplitAtPosition`, but a match at
        index 0 (an empty prefix) is the error `e`. */
    function SplitAtPosition1(pred: uint8 -> bool, e: ErrorKind): (r: IResult<PosSlice, PosSlice>)
      requires Valid()
      ensures r.Error? <==> Len() > 0 && pred(At(0))
      ensures r.Error? ==> r.input == this && r.kind == e
      ensures r.Incomplete? <==> NoMatch(Bytes(), pred)
      ensures r.Incomplete? ==> r == Incomplete(Size(1))
      ensures r.Done? ==> IsSplitAtFirstMatch(this, pred, r.rest, r.value) && r.value.Len() > 0
    {
      match FindFirst(Bytes(), pred, 0)
      case Some(i) =>
        if i == 0 then var me: PosSlice := this; Error(me, e)
        else Done(Offset(i), Take(i))
      case None => Incomplete(Size(1))
    }

    /** `split_at_position_complete(predicate)`: with no matching byte the whole
        view is the prefix and the suffix is empty. */
    function SplitAtPositionComplete(pred: uint8 -> bool): (r: IResult<PosSlice, PosSlice>)
      requires Valid()
      ensures r.Done?
      ensures !NoMatch(Bytes(), pred) ==> IsSplitAtFirstMatch(this, pred, r.rest, r.value)
      ensures NoMatch(Bytes(), pred) ==> r.value == this && r.rest == Offset(Len())
    {
      match FindFirst(Bytes(), pred, 0)
      case Some(i) => Done(Offset(i), Take(i))
      case None =>
        var (suffix, prefix) := TakeSplit(Len());
        Done(suffix, prefix)
    }

    /** `split_at_position1_complete(predicate, e)`: an empty prefix is the error
        `e`, whether it comes from a match at index 0 or from an empty view. */
    function SplitAtPosition1Complete(pred: uint8 -> bool, e: ErrorKind): (r: IResult<PosSlice, PosSlice>)
      requires Valid()
      ensures r.Error? <==> Len() == 0 || pred(At(0))
      ensures r.Error? ==> r.input == this && r.kind == e
      ensures !r.Incomplete?
      ensures r.Done? && !NoMatch(Bytes(), pred) ==> IsSplitAtFirstMatch(this, pred, r.rest, r.value)
      ensures r.Done? && NoMatch(Bytes(), pred) ==> r.value == this && r.rest == Offset(Len())
      ensures r.Done? ==> r.value.Len() > 0
    {
      match FindFirst(Bytes(), pred, 0)
      case Some(i) =>
        if i == 0 then var me: PosSlice := this; Error(me, e)
        else Done(Offset(i), Take(i))
      case None =>
        if Len() == 0 then var me: PosSlice := this; Error(me, e)
        else
          var (suffix, prefix) := TakeSplit(Len());
          Done(suffix, prefix)
    }

    /** `Compare::compare(to)`: byte-exact comparison of the start of the view. */
    function Compare(to: seq<uint8>): (r: CompareResult)
      requires Valid()
      ensures r == CompareOk <==> Len() >= |to| && Bytes()[..|to|] == to
      ensures r == CompareIncomplete <==> Len() < |to| && to[..Len()] == Bytes()
    {
      CompareByExact(Bytes(), to);
      CompareBy(Bytes(), to, SameByte)
    }

    /** `Compare::compare_no_case(to)`: the same comparison after mapping ASCII
        upper-case letters to lower case on both sides. */
    function CompareNoCase(to: seq<uint8>): (r: CompareResult)
      requires Valid()
      ensures r == CompareOk <==> Len() >= |to| && Lowered(Bytes()[..|to|]) == Lowered(to)
      ensures r == CompareIncomplete <==> Len() < |to| && Lowered(to[..Len()]) == Lowered(Bytes())
    {
      CompareByAgrees(Bytes(), to, LowercaseByte);
      LoweredPrefix(Bytes(), to);
      CompareBy(Bytes(), to, LowercaseByte)
    }
  }

  /** A `PosSlice` is a window that lies inside its buffer. */
  type PosSlice = w: Window | w.Valid() witness Window([], 0, 0, 0)

  datatype CompareResult = CompareOk | CompareIncomplete | CompareError

  /** No byte of `s` satisfies `predicate`. */
  predicate NoMatch(s: seq<uint8>, pred: uint8 -> bool) {
    forall j :: 0 <= j < |s| ==> !pred(s[j])
  }

  /** `prefix` and `suffix` split `v` just before its first byte satisfying
      `predicate`: the prefix is `take` and the suffix `offset` of that index. */
  predicate IsSplitAtFirstMatch(v: PosSlice, pred: uint8 -> bool, suffix: PosSlice, prefix: PosSlice) {
    && prefix.Len() < v.Len()
    && prefix == v.Take(prefix.Len())
    && suffix == v.Offset(prefix.Len())
    && NoMatch(v.Bytes()[..prefix.Len()], pred)
    && pred(v.At(prefix.Len()))
  }

  /** `(from..s.len()).find(|i| pred(s[i]))`. */
  function FindFirst(s: seq<uint8>, pred: uint8 -> bool, from: nat): (r: Option<nat>)
    requires from <= |s|
    requires NoMatch(s[..from], pred)
    ensures r.None? ==> NoMatch(s, pred)
    ensures r.Some? ==> r.value < |s| && pred(s[r.value]) && NoMatch(s[..r.value], pred)
    decreases |s| - from
  {
    if from == |s| then
      assert s[..from] == s;
      None
    else if pred(s[from]) then Some(from)
    else
      assert s[..from + 1] == s[..from] + [s[from]];
      FindFirst(s, pred, from + 1)
  }

  /** ASCII lower-casing of one byte. */
  function LowercaseByte(b: uint8): uint8 {
    if 0x41 <= b <= 0x5A then b + 0x20 else b
  }

  function Lowered(s: seq<uint8>): (r: seq<uint8>)
    ensures |r| == |s| && forall i :: 0 <= i < |s| ==> r[i] == LowercaseByte(s[i])
  {
    seq(|s|, i requires 0 <= i < |s| => LowercaseByte(s[i]))
  }

  lemma LoweredPrefix(a: seq<uint8>, b: seq<uint8>)
    ensures PrefixesAgree(a, b, LowercaseByte) <==>
              if |a| >= |b| then Lowered(a[..|b|]) == Lowered(b) else Lowered(b[..|a|]) == Lowered(a)
  {
    if |a| >= |b| {
      if Lowered(a[..|b|]) == Lowered(b) {
        forall i | 0 <= i < |b| ensures LowercaseByte(a[i]) == LowercaseByte(b[i]) {
          assert Lowered(a[..|b|])[i] == Lowered(b)[i];
        }
      }
    } else {
      if Lowered(b[..|a|]) == Lowered(a) {
        forall i | 0 <= i < |a| ensures LowercaseByte(a[i]) == LowercaseByte(b[i]) {
          assert Lowered(b[..|a|])[i] == Lowered(a)[i];
        }
      }
    }
  }

  /** The common prefix of `a` and `b` agrees byte for byte under `norm`. */
  predicate PrefixesAgree(a: seq<uint8>, b: seq<uint8>, norm: uint8 -> uint8) {
    forall i :: 0 <= i < |a| && i < |b| ==> norm(a[i]) == norm(b[i])
  }

  /** The comparison both `Compare` methods perform: walk the zipped inputs;
      the first pair that differs under `norm` is an error, otherwise the
      shorter input decides. */
  function CompareBy(a: seq<uint8>, b: seq<uint8>, norm: uint8 -> uint8): CompareResult
    decreases |a|
  {
    if |a| == 0 || |b| == 0 then
      if |a| >= |b| then CompareOk else CompareIncomplete
    else if norm(a[0]) != norm(b[0]) then CompareError
    else CompareBy(a[1..], b[1..], norm)
  }

  /** The walk fails exactly when the common prefix disagrees somewhere, and
      succeeds exactly when it agrees and `a` is at least as long as `b`. */
  lemma {:induction false} CompareByAgrees(a: seq<uint8>, b: seq<uint8>, norm: uint8 -> uint8)
    ensures CompareBy(a, b, norm) == CompareError <==> !PrefixesAgree(a, b, norm)
    ensures CompareBy(a, b, norm) == CompareOk <==> PrefixesAgree(a, b, norm) && |a| >= |b|
    decreases |a|
  {
    if |a| > 0 && |b| > 0 {
      CompareByAgrees(a[1..], b[1..], norm);
      if norm(a[0]) == norm(b[0]) && PrefixesAgree(a[1..], b[1..], norm) {
        forall i | 0 <= i < |a| && i < |b| ensures norm(a[i]) == norm(b[i]) {
          if i > 0 { assert a[1..][i - 1] == a[i] && b[1..][i - 1] == b[i]; }
        }
      }
      if PrefixesAgree(a, b, norm) {
        forall i | 0 <= i < |a[1..]| && i < |b[1..]| ensures norm(a[1..][i]) == norm(b[1..][i]) {
          assert norm(a[i + 1]) == norm(b[i + 1]);
        }
      }
    }
  }

  /** The identity on bytes: the comparison `Compare` makes. */
  function SameByte(x: uint8): uint8 {
    x
  }

  /** With no normalisation, success and incompleteness are prefix equalities. */
  lemma CompareByExact(a: seq<uint8>, b: seq<uint8>)
    ensures CompareBy(a, b, SameByte) == CompareOk <==> |a| >= |b| && a[..|b|] == b
    ensures CompareBy(a, b, SameByte) == CompareIncomplete <==> |a| < |b| && b[..|a|] == a
  {
    CompareByAgrees(a, b, SameByte);
    if |a| >= |b| && PrefixesAgree(a, b, SameByte) {
      assert a[..|b|] == b;
    }
    if |a| < |b| && PrefixesAgree(a, b, SameByte) {
      assert b[..|a|] == a;
    }
    if |a| >= |b| && a[..|b|] == b {
      assert forall i :: 0 <= i < |b| ==> a[..|b|][i] == a[i];
    }
    if |a| < |b| && b[..|a|] == a {
      assert forall i :: 0 <= i < |a| ==> b[..|a|][i] == b[i];
    }
  }

  /** `v` is a window on `file`: its bytes are those of the file from its position on. */
  predicate ViewOf(file: seq<uint8>, v: PosSlice) {
    v.pos + v.Len() <= |file| && v.Bytes() == file[v.pos..v.pos + v.Len()]
  }

  /** `PosSlice::from_slice`: the whole file, at position 0. */
  function FromSlice(file: seq<uint8>): (r: PosSlice)
    ensures ViewOf(file, r) && r.Pos() == 0 && r.Bytes() == file
  {
    Window(file, 0, |file|, 0)
  }

  /** `PosSlice::new(pos, slice)`. */
  function New(pos: nat, slice: seq<uint8>): (r: PosSlice)
    ensures r.Pos() == pos && r.Bytes() == slice
  {
    Window(slice, 0, |slice|, pos)
  }

  /** The bytes of a sub-slice are the sub-sequence of the bytes. */
  lemma SliceBytes(v: PosSlice, from: nat, to: nat)
    requires from <= to <= v.Len()
    ensures v.Slice(from, to).Bytes() == v.Bytes()[from..to]
    ensures forall k :: 0 <= k < to - from ==> v.Slice(from, to).At(k) == v.At(from + k)
  {
    var r := v.Slice(from, to);
    assert forall k :: 0 <= k < to - from ==> r.Bytes()[k] == v.base[v.start + from + k] == v.Bytes()[from..to][k];
  }

  /** `take_split` cuts the bytes in two without losing or repeating one, and its
      halves are `offset` and `take` of the same amount. */
  lemma TakeSplitBytes(v: PosSlice, amount: nat)
    requires amount <= v.Len()
    ensures v.TakeSplit(amount).1.Bytes() + v.TakeSplit(amount).0.Bytes() == v.Bytes()
    ensures v.TakeSplit(amount).0 == v.Offset(amount) && v.TakeSplit(amount).1 == v.Take(amount)
  {
    SliceBytes(v, 0, amount);
    SliceBytes(v, amount, v.Len());
    assert v.Bytes()[..amount] + v.Bytes()[amount..] == v.Bytes();
  }

  /** The bytes of a non-empty view are its first byte and the bytes after it. */
  lemma ConsBytes(v: PosSlice)
    requires v.Len() > 0
    ensures v.Bytes() == [v.At(0)] + v.Offset(1).Bytes()
  {
    assert v.Bytes() == [v.At(0)] + v.Bytes()[1..];
  }

  /** Sub-slicing keeps a view a window on the same file. */
  lemma SliceKeepsView(file: seq<uint8>, v: PosSlice, from: nat, to: nat)
    requires ViewOf(file, v) && from <= to <= v.Len()
    ensures ViewOf(file, v.Slice(from, to))
  {
    SliceBytes(v, from, to);
    var whole := file[v.pos..v.pos + v.Len()];
    assert forall k :: 0 <= k < to - from ==> whole[from..to][k] == whole[from + k] == file[v.pos + from + k];
    assert whole[from..to] == file[v.pos + from..v.pos + to];
  }

  /** Offsets compose: moving on by `a` and then `b` is moving on by `a + b`. */
  lemma OffsetOffset(v: PosSlice, a: nat, b: nat)
    requires a + b <= v.Len()
    ensures v.Offset(a).Offset(b) == v.Offset(a + b)
  {
  }
}
