/** The layout shared by the STRG, AUDO, SOND, TPAG, TXTR, SPRT, FONT and AGRP
    sections: a `u32` count, that many absolute `u32` pointers, then one record
    decoded at each pointer, relative to the view that follows the pointer list.
    The decoded records keep pointer order, and a reverse map takes a key made
    from each pointer to the index of the last record with that key. */
module IndirectTable {
  import opened BoundedInts
  import opened Wrappers
  import opened Nom
  import opened TrackSlice
  import opened ByteParsers

  /** A decoded table: the records in pointer order and the `locations` map. */
  datatype Table<T> = Table(records: seq<T>, locations: map<uint32, nat>)

  /** Every index stored in `locations` names a record. */
  predicate WellFormed<T>(t: Table<T>) {
    forall k :: k in t.locations ==> t.locations[k] < |t.records|
  }

  /** The count word and the pointer list: `le_u32` then `count(le_u32, n)`. */
  function PointerList(i: PosSlice): (r: Parsed<seq<uint32>>)
    ensures r.Done? <==> i.Len() >= 4 && i.Len() >= 4 + 4 * WordAt(i, 0)
    ensures r.Done? ==>
      && |r.value| == WordAt(i, 0)
      && r.rest == i.Offset(4 + 4 * |r.value|)
      && WordsAt(i, 1, r.value)
    ensures !r.Done? ==> r == Error(i.Offset(WholeWords(i.Len())), Eof)
  {
    var count := LeU32(i);
    if !count.Done? then
      Error(i, Eof)
    else
      var r := CountU32(count.rest, count.value);
      if r.Done? then
        WordsAtShift(i, 1, 0, r.value);
        r
      else
        WholeWordsSkip(i.Len(), 1);
        r
  }

  /** A pointer lands inside the view (possibly at its very end); otherwise the
      subtraction or the slice in `get_*_at_offset` panics. */
  predicate InRange(view: PosSlice, p: uint32) {
    view.pos <= p <= view.pos + view.Len()
  }

  /** `input.offset(offset - input.pos())`: the view starting at absolute position `p`. */
  function Target(view: PosSlice, p: uint32): (r: PosSlice)
    requires InRange(view, p)
    ensures r.Pos() == p && r.Len() == view.Len() - (p - view.pos)
  {
    view.Offset(p - view.pos)
  }

  /** Resolving `p` and running `decode` there does not panic. */
  ghost predicate SafeAt<T>(view: PosSlice, p: uint32, decode: PosSlice --> Parsed<T>) {
    InRange(view, p) && decode.requires(Target(view, p))
  }

  /** The records at the first `n` pointers are all decoded successfully. */
  ghost predicate DecodedBefore<T>(view: PosSlice, ptrs: seq<uint32>, decode: PosSlice --> Parsed<T>, n: nat)
    requires n <= |ptrs|
  {
    forall j :: 0 <= j < n ==> SafeAt(view, ptrs[j], decode) && decode(Target(view, ptrs[j])).Done?
  }

  /** `collect::<Result<Vec<_>, _>>` stops at the first failing record, so a pointer
      only has to be safe when every record before it decoded. */
  ghost predicate AllSafe<T>(view: PosSlice, ptrs: seq<uint32>, decode: PosSlice --> Parsed<T>) {
    forall k :: 0 <= k < |ptrs| && DecodedBefore(view, ptrs, decode, k) ==> SafeAt(view, ptrs[k], decode)
  }

  /** The decoder never asks for more input. */
  ghost predicate Decisive<T>(decode: PosSlice --> Parsed<T>) {
    forall v :: decode.requires(v) ==> !decode(v).Incomplete?
  }

  lemma DecodedBeforePrefix<T>(view: PosSlice, ptrs: seq<uint32>, decode: PosSlice --> Parsed<T>, m: nat, k: nat)
    requires k <= m <= |ptrs|
    ensures DecodedBefore(view, ptrs[..m], decode, k) <==> DecodedBefore(view, ptrs, decode, k)
  {
    assert forall j :: 0 <= j < k ==> ptrs[..m][j] == ptrs[j];
  }

  lemma AllSafePrefix<T>(view: PosSlice, ptrs: seq<uint32>, decode: PosSlice --> Parsed<T>, m: nat)
    requires m <= |ptrs| && AllSafe(view, ptrs, decode)
    ensures AllSafe(view, ptrs[..m], decode)
  {
    forall k | 0 <= k < m && DecodedBefore(view, ptrs[..m], decode, k)
      ensures SafeAt(view, ptrs[..m][k], decode)
    {
      DecodedBeforePrefix(view, ptrs, decode, m, k);
      assert ptrs[..m][k] == ptrs[k];
    }
  }

  /** The records at every pointer, in pointer order; the first record that fails
      makes the whole list fail with its error. The rest is always `view`. */
  function DecodeAll<T>(view: PosSlice, ptrs: seq<uint32>, decode: PosSlice --> Parsed<T>): (r: Parsed<seq<T>>)
    requires AllSafe(view, ptrs, decode)
    ensures r.Done? <==> DecodedBefore(view, ptrs, decode, |ptrs|)
    ensures r.Done? ==>
      && r.rest == view
      && |r.value| == |ptrs|
      && forall k :: 0 <= k < |ptrs| ==> r.value[k] == decode(Target(view, ptrs[k])).value
    ensures !r.Done? ==> exists k ::
      && 0 <= k < |ptrs|
      && DecodedBefore(view, ptrs, decode, k)
      && SafeAt(view, ptrs[k], decode)
      && !decode(Target(view, ptrs[k])).Done?
      && r == decode(Target(view, ptrs[k])).PropagateFailure()
    ensures Decisive(decode) ==> !r.Incomplete?
    decreases |ptrs|
  {
    if |ptrs| == 0 then Done(view, [])
    else
      var n := |ptrs| - 1;
      AllSafePrefix(view, ptrs, decode, n);
      var front := DecodeAll(view, ptrs[..n], decode);
      if !front.Done? then
        FrontFailureLifts(view, ptrs, decode, n, front);
        front
      else
        assert DecodedBefore(view, ptrs, decode, n) by {
          assert forall j :: 0 <= j < n ==> ptrs[..n][j] == ptrs[j];
        }
        var last := decode(Target(view, ptrs[n]));
        if last.Done? then
          var all := front.value + [last.value];
          assert forall k :: 0 <= k < n ==> all[k] == decode(Target(view, ptrs[..n][k])).value;
          Done(view, all)
        else
          last.PropagateFailure()
  }

  lemma FrontFailureLifts<T>(view: PosSlice, ptrs: seq<uint32>, decode: PosSlice --> Parsed<T>, n: nat, front: Parsed<seq<T>>)
    requires n <= |ptrs|
    requires exists k ::
      && 0 <= k < n
      && DecodedBefore(view, ptrs[..n], decode, k)
      && SafeAt(view, ptrs[..n][k], decode)
      && !decode(Target(view, ptrs[..n][k])).Done?
      && front == decode(Target(view, ptrs[..n][k])).PropagateFailure()
    ensures exists k ::
      && 0 <= k < |ptrs|
      && DecodedBefore(view, ptrs, decode, k)
      && SafeAt(view, ptrs[k], decode)
      && !decode(Target(view, ptrs[k])).Done?
      && front == decode(Target(view, ptrs[k])).PropagateFailure()
  {
    var k :| && 0 <= k < n
             && DecodedBefore(view, ptrs[..n], decode, k)
             && SafeAt(view, ptrs[..n][k], decode)
             && !decode(Target(view, ptrs[..n][k])).Done?
             && front == decode(Target(view, ptrs[..n][k])).PropagateFailure();
    assert ptrs[..n][k] == ptrs[k];
    assert DecodedBefore(view, ptrs, decode, k);
  }

  /** The key and index of the last pointer whose key is `key`. */
  predicate IsLastKeyIndex(ptrs: seq<uint32>, shift: uint32, key: uint32, idx: nat) {
    && idx < |ptrs|
    && WrappingAdd(ptrs[idx], shift) == key
    && forall j :: idx < j < |ptrs| ==> WrappingAdd(ptrs[j], shift) != key
  }

  /** `enumerate().map(|(a, b)| (b + shift, a)).collect::<HashMap<_, _>>()`:
      inserting in order, a later pointer with the same key overwrites an
      earlier one, so each key maps to the last index that carries it. */
  function Locations(ptrs: seq<uint32>, shift: uint32): (m: map<uint32, nat>)
    ensures forall k :: k in m <==> exists j :: 0 <= j < |ptrs| && WrappingAdd(ptrs[j], shift) == k
    ensures forall k :: k in m ==> IsLastKeyIndex(ptrs, shift, k, m[k])
    decreases |ptrs|
  {
    if |ptrs| == 0 then map[]
    else
      var n := |ptrs| - 1;
      var front := Locations(ptrs[..n], shift);
      LocationsKeysStep(ptrs, shift, ptrs[..n], front);
      LocationsLastStep(ptrs, shift, front);
      front[WrappingAdd(ptrs[n], shift) := n]
  }

  /** Inserting the last pointer's key adds exactly that key. */
  lemma LocationsKeysStep(ptrs: seq<uint32>, shift: uint32, pre: seq<uint32>, front: map<uint32, nat>)
    requires |ptrs| > 0 && pre == ptrs[..|ptrs| - 1]
    requires forall k :: k in front <==> exists j :: 0 <= j < |pre| && WrappingAdd(pre[j], shift) == k
    ensures var m := front[WrappingAdd(ptrs[|ptrs| - 1], shift) := |ptrs| - 1];
      forall k :: k in m <==> exists j :: 0 <= j < |ptrs| && WrappingAdd(ptrs[j], shift) == k
  {
    var n := |ptrs| - 1;
    var key := WrappingAdd(ptrs[n], shift);
    var m := front[key := n];
    forall k ensures k in m <==> exists j :: 0 <= j < |ptrs| && WrappingAdd(ptrs[j], shift) == k {
      if k in front {
        var j :| 0 <= j < n && WrappingAdd(pre[j], shift) == k;
        assert WrappingAdd(ptrs[j], shift) == k;
      }
      if k != key && exists j :: 0 <= j < |ptrs| && WrappingAdd(ptrs[j], shift) == k {
        var j :| 0 <= j < |ptrs| && WrappingAdd(ptrs[j], shift) == k;
        assert j < n && WrappingAdd(pre[j], shift) == k;
      }
    }
  }

  /** After inserting the last pointer's key, every key still maps to the last
      index that carries it. */
  lemma LocationsLastStep(ptrs: seq<uint32>, shift: uint32, front: map<uint32, nat>)
    requires |ptrs| > 0
    requires forall k :: k in front ==> IsLastKeyIndex(ptrs[..|ptrs| - 1], shift, k, front[k])
    ensures var m := front[WrappingAdd(ptrs[|ptrs| - 1], shift) := |ptrs| - 1];
      forall k :: k in m ==> IsLastKeyIndex(ptrs, shift, k, m[k])
  {
    var n := |ptrs| - 1;
    var key := WrappingAdd(ptrs[n], shift);
    var m := front[key := n];
    forall k | k in m ensures IsLastKeyIndex(ptrs, shift, k, m[k]) {
      if k != key {
        var idx := front[k];
        assert IsLastKeyIndex(ptrs[..n], shift, k, idx);
        forall j | idx < j < |ptrs| ensures WrappingAdd(ptrs[j], shift) != k {
          if j < n {
            assert ptrs[..n][j] == ptrs[j];
          }
        }
        assert ptrs[..n][idx] == ptrs[idx];
      }
    }
  }

  /** The table is safe to decode: if the pointer list reads, every record that
      is reached resolves inside the view. */
  ghost predicate TableSafe<T>(i: PosSlice, decode: PosSlice --> Parsed<T>) {
    var pl := PointerList(i);
    pl.Done? ==> AllSafe(pl.rest, pl.value, decode)
  }

  /** The `take` of every indirect table: the pointer list, a record at every
      pointer, and `locations` keyed by `pointer + shift` (with `u32` wrap-around).
      The rest is the view right after the pointer list. */
  function TakeTable<T>(i: PosSlice, decode: PosSlice --> Parsed<T>, shift: uint32): (r: Parsed<Table<T>>)
    requires TableSafe(i, decode)
    ensures !PointerList(i).Done? ==> r == PointerList(i).PropagateFailure()
    ensures PointerList(i).Done? ==>
      var pl := PointerList(i);
      && (r.Done? <==> DecodedBefore(pl.rest, pl.value, decode, |pl.value|))
      && (r.Done? ==>
        && r.rest == pl.rest
        && |r.value.records| == |pl.value|
        && (forall k :: 0 <= k < |pl.value| ==> r.value.records[k] == decode(Target(pl.rest, pl.value[k])).value)
        && r.value.locations == Locations(pl.value, shift)
        && WellFormed(r.value))
      && (!r.Done? ==> r == DecodeAll(pl.rest, pl.value, decode).PropagateFailure())
    ensures Decisive(decode) ==> !r.Incomplete?
  {
    var pl :- PointerList(i);
    var (view, ptrs) := pl;
    var recs :- DecodeAll(view, ptrs, decode);
    var (_, records) := recs;
    Done(view, Table(records, Locations(ptrs, shift)))
  }

  /** `get(loc)`: `Some(records[locations[loc]])` for a known key, else `None`. */
  function Get<T>(t: Table<T>, loc: uint32): (r: Option<T>)
    requires WellFormed(t)
    ensures r.Some? <==> loc in t.locations
    ensures r.Some? ==> r.value == t.records[t.locations[loc]]
  {
    if loc in t.locations then Some(t.records[t.locations[loc]]) else None
  }

  /** For a decoder that never panics and never asks for more input, the table
      decodes exactly when every pointer is in range and the record there fits,
      as `fits` tells, and it is never incomplete. */
  lemma TakeTableTotal<T>(i: PosSlice, decode: PosSlice -> Parsed<T>, shift: uint32, fits: PosSlice -> bool)
    requires TableSafe(i, decode)
    requires forall v :: decode(v).Done? <==> fits(v)
    requires forall v :: !decode(v).Incomplete?
    ensures PointerList(i).Done? ==>
      var pl := PointerList(i);
      (TakeTable(i, decode, shift).Done? <==>
         forall k :: 0 <= k < |pl.value| ==> InRange(pl.rest, pl.value[k]) && fits(Target(pl.rest, pl.value[k])))
    ensures !TakeTable(i, decode, shift).Incomplete?
  {
  }

  /** A lookup after decoding finds the record decoded at the last pointer whose
      key is `loc`, and nothing when no pointer has that key. */
  lemma GetAfterTake<T>(i: PosSlice, decode: PosSlice --> Parsed<T>, shift: uint32, loc: uint32)
    requires TableSafe(i, decode) && TakeTable(i, decode, shift).Done?
    ensures
      var pl := PointerList(i);
      var t := TakeTable(i, decode, shift).value;
      && WellFormed(t)
      && (Get(t, loc).None? <==> forall j :: 0 <= j < |pl.value| ==> WrappingAdd(pl.value[j], shift) != loc)
      && (Get(t, loc).Some? ==>
          var j := t.locations[loc];
          && IsLastKeyIndex(pl.value, shift, loc, j)
          && SafeAt(pl.rest, pl.value[j], decode)
          && Get(t, loc).value == decode(Target(pl.rest, pl.value[j])).value)
  {
    var pl := PointerList(i);
    var t := TakeTable(i, decode, shift).value;
    GetFindsLast(t, pl.value, shift, loc);
    if loc in t.locations {
      var j := t.locations[loc];
      assert SafeAt(pl.rest, pl.value[j], decode);
    }
  }

  /** A lookup through `Locations` finds the record index of the last pointer
      with the key, and fails exactly when no pointer has it. */
  lemma GetFindsLast<T>(t: Table<T>, ptrs: seq<uint32>, shift: uint32, loc: uint32)
    requires t.locations == Locations(ptrs, shift) && |t.records| == |ptrs|
    ensures WellFormed(t)
    ensures Get(t, loc).None? <==> forall j :: 0 <= j < |ptrs| ==> WrappingAdd(ptrs[j], shift) != loc
    ensures Get(t, loc).Some? ==> IsLastKeyIndex(ptrs, shift, loc, t.locations[loc]) && Get(t, loc).value == t.records[t.locations[loc]]
  {
  }

  /** With no shift a key is its pointer, so some pointer has key `loc` exactly
      when `loc` is in the pointer list. */
  lemma ZeroShiftKeys(ptrs: seq<uint32>, loc: uint32)
    ensures (forall j :: 0 <= j < |ptrs| ==> WrappingAdd(ptrs[j], 0) != loc) <==> loc !in ptrs
  {
    if loc in ptrs {
      var j :| 0 <= j < |ptrs| && ptrs[j] == loc;
      assert WrappingAdd(ptrs[j], 0) == loc;
    }
  }

  /** Adding the same shift to two different words gives two different keys. */
  lemma WrappingAddInjective(p: uint32, q: uint32, shift: uint32)
    requires WrappingAdd(p, shift) == WrappingAdd(q, shift)
    ensures p == q
  {
  }

  /** With no repeated pointer, `locations` inverts the pointer list exactly. */
  lemma LocationsOfDistinct(ptrs: seq<uint32>, shift: uint32, k: nat)
    requires k < |ptrs|
    requires forall a, b :: 0 <= a < b < |ptrs| ==> ptrs[a] != ptrs[b]
    ensures WrappingAdd(ptrs[k], shift) in Locations(ptrs, shift)
    ensures Locations(ptrs, shift)[WrappingAdd(ptrs[k], shift)] == k
  {
    var m := Locations(ptrs, shift);
    var key := WrappingAdd(ptrs[k], shift);
    assert key in m;
    var idx := m[key];
    if idx != k {
      WrappingAddInjective(ptrs[idx], ptrs[k], shift);
    }
  }
}
