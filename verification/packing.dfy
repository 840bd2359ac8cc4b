/** Packing a part's entity records into the flat memory buffer that is
    transferred to the part's hyperslab, and unpacking them again.

    A record is the sequence of `slab` field values of one entity, in the
    order of the table's lines. The writer reuses one scratch buffer for
    all parts: before each part it is resized to `slab * width` (keeping its
    old prefix, filling new cells), and then only the cells of the part's own
    entities are overwritten. */
module Packing {
  import opened Arith
  import opened Layout

  /** `std::vector::resize(n, fill)`: keep the first `n` cells, append
      `fill` cells when growing. */
  function Resize<T>(buf: seq<T>, n: nat, fill: T): (r: seq<T>)
    ensures |r| == n
    ensures forall i :: 0 <= i < n ==> r[i] == (if i < |buf| then buf[i] else fill)
  {
    if n <= |buf| then buf[..n] else buf + seq(n - |buf|, _ => fill)
  }

  /** At most `width` records, each of `slab` fields. */
  predicate Fits<T>(records: seq<seq<T>>, slab: nat, width: nat)
  {
    |records| <= width && forall j :: 0 <= j < |records| ==> |records[j]| == slab
  }

  /** The buffer the writer transfers for one part: field `k` of entity `j`
      at `PackIndex(j, k)`, every other cell as the resize left it. */
  function Pack<T>(prev: seq<T>, fill: T, records: seq<seq<T>>, slab: nat, width: nat,
                   transpose: bool): (buf: seq<T>)
    requires Fits(records, slab, width)
    ensures |buf| == slab * width
  {
    var base := Resize(prev, slab * width, fill);
    seq(slab * width, idx requires 0 <= idx < slab * width =>
      var s := SlotOf(idx, slab, width, transpose);
      if s.entity < |records| then records[s.entity][s.field] else base[idx])
  }

  /** Field `k` of entity `j` is stored at `PackIndex(j, k)`. */
  lemma PackPlacesFields<T>(prev: seq<T>, fill: T, records: seq<seq<T>>, slab: nat, width: nat,
                            transpose: bool, j: nat, k: nat)
    requires Fits(records, slab, width)
    requires j < |records| && k < slab
    ensures Pack(prev, fill, records, slab, width, transpose)[PackIndex(j, k, slab, width, transpose)]
            == records[j][k]
  {
    SlotOfPackIndex(j, k, slab, width, transpose);
  }

  /** A cell that belongs to no entity of the part (padding) is not cleared:
      it keeps the previous buffer's value, or the fill value if the buffer
      grew past it. */
  lemma PackKeepsPadding<T>(prev: seq<T>, fill: T, records: seq<seq<T>>, slab: nat, width: nat,
                            transpose: bool, idx: nat)
    requires Fits(records, slab, width)
    requires idx < slab * width && SlotOf(idx, slab, width, transpose).entity >= |records|
    ensures Pack(prev, fill, records, slab, width, transpose)[idx]
            == (if idx < |prev| then prev[idx] else fill)
  {
  }

  /** Consequently a part without entities is written with the previous
      part's buffer unchanged: its padding holds the previous part's data,
      not zeros. */
  lemma PackEmptyRepeatsPrevious<T>(prev: seq<T>, fill: T, slab: nat, width: nat, transpose: bool)
    requires |prev| == slab * width
    ensures Pack(prev, fill, [], slab, width, transpose) == prev
  {
    var buf := Pack(prev, fill, [], slab, width, transpose);
    forall idx | 0 <= idx < |prev|
      ensures buf[idx] == prev[idx]
    {
      PackKeepsPadding(prev, fill, [], slab, width, transpose, idx);
    }
  }

  /** Contents of the buffer after the writer's loop has stored all fields
      of entities `0 .. j-1` and fields `0 .. k-1` of entity `j`. */
  function Partial<T>(base: seq<T>, records: seq<seq<T>>, slab: nat, width: nat, transpose: bool,
                      idx: nat, j: nat, k: nat): T
    requires Fits(records, slab, width) && |base| == slab * width && idx < |base|
    requires j < |records| || (j == |records| && k == 0)
  {
    var s := SlotOf(idx, slab, width, transpose);
    if s.entity < j || (s.entity == j && s.field < k) then records[s.entity][s.field] else base[idx]
  }

  /** Storing field `k` of entity `j` changes the partial contents at that
      field's packed index only. */
  lemma PartialStep<T>(base: seq<T>, records: seq<seq<T>>, slab: nat, width: nat, transpose: bool,
                       j: nat, k: nat, idx: nat)
    requires Fits(records, slab, width) && |base| == slab * width && idx < |base|
    requires j < |records| && k < slab
    ensures Partial(base, records, slab, width, transpose, idx, j, k + 1)
            == if idx == PackIndex(j, k, slab, width, transpose) then records[j][k]
               else Partial(base, records, slab, width, transpose, idx, j, k)
  {
    SlotOfPackIndex(j, k, slab, width, transpose);
    PackIndexOfSlot(idx, slab, width, transpose);
  }

  /** The writer's packing loop: for each entity `j` below the part's
      count, for each field `k` of the slab, store the field at its packed
      index. The result is exactly `Pack`. */
  method PackBuffer<T>(prev: seq<T>, fill: T, records: seq<seq<T>>, slab: nat, width: nat,
                       transpose: bool) returns (buf: seq<T>)
    requires Fits(records, slab, width)
    ensures buf == Pack(prev, fill, records, slab, width, transpose)
  {
    buf := Resize(prev, slab * width, fill);
    ghost var base := buf;
    var j := 0;
    while j < |records|
      invariant 0 <= j <= |records|
      invariant |buf| == slab * width
      invariant forall idx :: 0 <= idx < |buf| ==>
                  buf[idx] == Partial(base, records, slab, width, transpose, idx, j, 0)
    {
      var k := 0;
      while k < slab
        invariant 0 <= k <= slab
        invariant |buf| == slab * width
        invariant forall idx :: 0 <= idx < |buf| ==>
                    buf[idx] == Partial(base, records, slab, width, transpose, idx, j, k)
      {
        var p := PackIndex(j, k, slab, width, transpose);
        buf := buf[p := records[j][k]];
        forall idx | 0 <= idx < |buf|
          ensures buf[idx] == Partial(base, records, slab, width, transpose, idx, j, k + 1)
        {
          PartialStep(base, records, slab, width, transpose, j, k, idx);
        }
        k := k + 1;
      }
      forall idx | 0 <= idx < |buf|
        ensures buf[idx] == Partial(base, records, slab, width, transpose, idx, j + 1, 0)
      {
      }
      j := j + 1;
    }
    assert forall idx :: 0 <= idx < |buf| ==>
             buf[idx] == Pack(prev, fill, records, slab, width, transpose)[idx];
  }

  /** The fields of entity `j` as the reader finds them in a buffer. */
  function FieldsAt<T>(buf: seq<T>, j: nat, slab: nat, width: nat, transpose: bool): (fields: seq<T>)
    requires |buf| == slab * width && j < width
    ensures |fields| == slab
  {
    seq(slab, k requires 0 <= k < slab => buf[PackIndex(j, k, slab, width, transpose)])
  }

  /** The reader's loop over its own `count` entities: one record per
      entity, nothing beyond `count` is looked at. */
  function Unpack<T>(buf: seq<T>, count: nat, slab: nat, width: nat, transpose: bool): (records: seq<seq<T>>)
    requires |buf| == slab * width && count <= width
    ensures |records| == count && Fits(records, slab, width)
  {
    seq(count, j requires 0 <= j < count => FieldsAt(buf, j, slab, width, transpose))
  }

  /** Round trip: unpacking a packed buffer with the same layout and the
      part's own count returns the part's records, whatever the previous
      buffer held. */
  lemma UnpackPack<T>(prev: seq<T>, fill: T, records: seq<seq<T>>, slab: nat, width: nat, transpose: bool)
    requires Fits(records, slab, width)
    ensures Unpack(Pack(prev, fill, records, slab, width, transpose), |records|, slab, width, transpose)
            == records
  {
    var buf := Pack(prev, fill, records, slab, width, transpose);
    var out := Unpack(buf, |records|, slab, width, transpose);
    forall j | 0 <= j < |records|
      ensures out[j] == records[j]
    {
      forall k | 0 <= k < slab
        ensures out[j][k] == records[j][k]
      {
        PackPlacesFields(prev, fill, records, slab, width, transpose, j, k);
      }
    }
  }

  /** The reader ignores padding: two buffers that agree on the cells of the
      first `count` entities unpack to the same records. */
  lemma UnpackIgnoresPadding<T>(b1: seq<T>, b2: seq<T>, count: nat, slab: nat, width: nat, transpose: bool)
    requires |b1| == slab * width && |b2| == slab * width && count <= width
    requires forall j, k :: 0 <= j < count && 0 <= k < slab ==>
               b1[PackIndex(j, k, slab, width, transpose)] == b2[PackIndex(j, k, slab, width, transpose)]
    ensures Unpack(b1, count, slab, width, transpose) == Unpack(b2, count, slab, width, transpose)
  {
    var u1 := Unpack(b1, count, slab, width, transpose);
    var u2 := Unpack(b2, count, slab, width, transpose);
    forall j | 0 <= j < count
      ensures u1[j] == u2[j]
    {
    }
  }

  /** The writer's per-part loop over one table: each part's buffer starts
      from the previous part's buffer (the first from `prev`). */
  function PackAll<T>(prev: seq<T>, fill: T, parts: seq<seq<seq<T>>>, slab: nat, width: nat,
                      transpose: bool): (bufs: seq<seq<T>>)
    requires forall i :: 0 <= i < |parts| ==> Fits(parts[i], slab, width)
    ensures |bufs| == |parts|
    ensures forall i :: 0 <= i < |bufs| ==> |bufs[i]| == slab * width
    ensures |parts| > 0 ==> bufs[0] == Pack(prev, fill, parts[0], slab, width, transpose)
    ensures forall i :: 0 < i < |bufs| ==>
              bufs[i] == Pack(bufs[i - 1], fill, parts[i], slab, width, transpose)
    decreases |parts|
  {
    if |parts| == 0 then []
    else
      var first := Pack(prev, fill, parts[0], slab, width, transpose);
      [first] + PackAll(first, fill, parts[1..], slab, width, transpose)
  }

  /** Every part's records survive packing in its own buffer. */
  lemma PackAllRoundTrip<T>(prev: seq<T>, fill: T, parts: seq<seq<seq<T>>>, slab: nat, width: nat,
                            transpose: bool, r: nat)
    requires forall i :: 0 <= i < |parts| ==> Fits(parts[i], slab, width)
    requires r < |parts|
    ensures var bufs := PackAll(prev, fill, parts, slab, width, transpose);
            Unpack(bufs[r], |parts[r]|, slab, width, transpose) == parts[r]
  {
    var bufs := PackAll(prev, fill, parts, slab, width, transpose);
    var before := if r == 0 then prev else bufs[r - 1];
    UnpackPack(before, fill, parts[r], slab, width, transpose);
  }

  /** The scratch buffer left behind by a pass over `bufs`. */
  function Leftover<T>(prev: seq<T>, fill: T, bufs: seq<seq<T>>, n: nat): seq<T>
  {
    if |bufs| == 0 then Resize(prev, n, fill) else bufs[|bufs| - 1]
  }
}
