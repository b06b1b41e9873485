/** Repeated fields whose elements live on the heap: the repeated case of decode_pointer_field.  Numbers,
    fixed-length bytes and submessages (here without heap pointers of their own) are elements of the array;
    strings and byte arrays are blocks of their own to which the elements point. */
module PointerArrays {
  import opened Bits
  import opened Wire
  import opened Descriptor
  import opened DecodeSpec
  import opened IStreams
  import opened Heaps
  import Decoder

  function CellsOf(values: seq<Value>): (cells: seq<Cell>)
    ensures |cells| == |values| && forall k :: 0 <= k < |cells| ==> cells[k] == Scalar(values[k])
  {
    seq(|values|, k requires 0 <= k < |values| => Scalar(values[k]))
  }

  /** `p` holds the array `values`, in a live block with room for all of it. */
  ghost predicate Holds(heap: Heap, f: Field, p: Ref, values: seq<Value>)
    reads heap
  {
    && heap.Valid() && |values| <= PB_SIZE_MAX
    && (if p.Nil? then values == []
        else p.cells == CellsOf(values) && p.block in heap.blocks && f.dataSize * |values| <= heap.blocks[p.block])
  }

  /** The field a heap array behaves like: a static array of PB_SIZE_MAX elements. */
  function AsStatic(f: Field): Field {
    f.(atype := Static, arraySize := PB_SIZE_MAX)
  }

  lemma SameScalar(f: Field, s: bytes)
    requires f.ltype.Packable()
    ensures DecScalar(AsStatic(f), s) == DecScalar(f, s)
  {
  }

  lemma Monotone(d: nat, x: nat, y: nat)
    requires x <= y
    ensures d * x <= d * y
  {
  }

  lemma FitsWord(w: nat, d: nat, n: nat)
    requires w >= 2 && d <= PB_SIZE_MAX && n <= PB_SIZE_MAX
    ensures d * n < Pow2(8 * w)
  {
    Pow2Sum(16, 8 * w - 16);
    assert Pow2(4) == 16 && Pow2(8) == 16 * Pow2(4);
    Pow2Sum(8, 8);
    assert d * n <= 0xFE01 by { Monotone(d, n, 255); assert d * 255 <= 255 * 255; }
    assert Pow2(16) * Pow2(8 * w - 16) >= 0x1_0000;
  }

  /** Between two states of the heap nothing changed but the block of one array. */
  ghost predicate OthersKept(next0: nat, blocks0: map<nat, nat>, p: Ref, next1: nat, blocks1: map<nat, nat>, q: Ref) {
    && next0 <= next1
    && (q.To? ==> q.block >= next0 || (p.To? && q.block == p.block))
    && blocks1 - (if q.To? then {q.block} else {}) == blocks0 - (if p.To? then {p.block} else {})
  }

  lemma OthersKeptTwice(n0: nat, b0: map<nat, nat>, p0: Ref, n1: nat, b1: map<nat, nat>, p1: Ref, n2: nat,
        b2: map<nat, nat>, p2: Ref)
    requires OthersKept(n0, b0, p0, n1, b1, p1) && OthersKept(n1, b1, p1, n2, b2, p2)
    ensures OthersKept(n0, b0, p0, n2, b2, p2)
  {
  }

  lemma StartsWithRoom(heap: Heap, f: Field, p: Ref, values: seq<Value>)
    requires Holds(heap, f, p, values)
    ensures HoldsRoom(heap, f, p, values, |values|)
    ensures OthersKept(heap.next, heap.blocks, p, heap.next, heap.blocks, p)
  {
  }

  /** The array `values` in a block with room for `n` elements. */
  ghost predicate HoldsRoom(heap: Heap, f: Field, p: Ref, values: seq<Value>, n: nat)
    reads heap
  {
    && Holds(heap, f, p, values) && |values| <= n <= PB_SIZE_MAX
    && (n > 0 ==> p.To? && f.dataSize * n <= heap.blocks[p.block])
  }

  lemma RoomHolds(heap: Heap, f: Field, p: Ref, values: seq<Value>, n: nat)
    requires HoldsRoom(heap, f, p, values, n)
    ensures Holds(heap, f, p, values)
  {
  }

  lemma RoomBounds(heap: Heap, f: Field, p: Ref, values: seq<Value>, n: nat)
    requires HoldsRoom(heap, f, p, values, n)
    ensures |values| <= n <= PB_SIZE_MAX
  {
  }

  lemma QuotientNatural(x: nat, d: nat)
    requires d > 0
    ensures x / d >= 0
  {
  }

  /** The number of elements of `d` bytes that `x` bytes may hold, the last one perhaps in part. */
  lemma RoundedUp(x: nat, d: nat, limit: nat)
    requires x > 0 && d > 0
    ensures var n := (x - 1) / d + 1;
      d * (n - 1) < x <= d * n && (n <= limit <==> x <= d * limit)
  {
    var q := (x - 1) / d;
    assert x - 1 == d * q + (x - 1) % d;
    assert d * (q + 1) == d * q + d;
    if q + 1 <= limit { Monotone(d, q + 1, limit); } else { Monotone(d, limit, q); }
  }

  /** Reallocating the array for `n` elements. */
  method Resize(heap: Heap, f: Field, p: Ref, ghost values: seq<Value>, n: nat) returns (ok: bool, q: Ref)
    requires Holds(heap, f, p, values) && |values| < n <= PB_SIZE_MAX && heap.wordSize >= 2
      && 0 < f.dataSize <= PB_SIZE_MAX
    modifies heap
    ensures Holds(heap, f, q, values) && OthersKept(old(heap.next), old(heap.blocks), p, heap.next, heap.blocks, q)
    ensures ok ==> HoldsRoom(heap, f, q, values, n) && heap.refused == old(heap.refused)
    ensures !ok ==> heap.refused
  {
    hide Pow2;
    FitsWord(heap.wordSize, f.dataSize, n);
    Monotone(f.dataSize, |values|, n);
    ok, q := AllocateField(heap, p, f.dataSize, n);
    assert [] == CellsOf([]);
  }

  /** Room for one more element: if the block is full it grows by the number of elements that the rest of
      the run may hold, or by one if that is too many. */
  method MakeRoom(heap: Heap, f: Field, p: Ref, ghost values: seq<Value>, size: nat, room: nat, bytesLeft: nat)
    returns (ok: bool, q: Ref, allocatedSize: nat)
    requires HoldsRoom(heap, f, p, values, room) && size == |values| < PB_SIZE_MAX && bytesLeft > 0
    requires heap.wordSize >= 2 && 0 < f.dataSize <= PB_SIZE_MAX
    modifies heap
    ensures Holds(heap, f, q, values) && OthersKept(old(heap.next), old(heap.blocks), p, heap.next, heap.blocks, q)
    ensures ok ==>
      HoldsRoom(heap, f, q, values, allocatedSize) && size < allocatedSize && heap.refused == old(heap.refused)
    ensures !ok ==> heap.refused
    ensures ok && size < room ==> allocatedSize == room
    ensures ok && size == room ==>
      var more := allocatedSize - room;
      if bytesLeft <= f.dataSize * (PB_SIZE_MAX - 1 - room)
      then f.dataSize * (more - 1) < bytesLeft <= f.dataSize * more
      else more == 1
  {
    hide Holds, HoldsRoom, OthersKept;
    assert size <= room <= PB_SIZE_MAX by { RoomBounds(heap, f, p, values, room); }
    RoomHolds(heap, f, p, values, room);
    StartsWithRoom(heap, f, p, values);
    q, allocatedSize, ok := p, room, true;
    if size + 1 > allocatedSize {
      QuotientNatural(bytesLeft - 1, f.dataSize);
      RoundedUp(bytesLeft, f.dataSize, PB_SIZE_MAX - 1 - room);
      var remain := (bytesLeft - 1) / f.dataSize + 1;
      if remain < PB_SIZE_MAX - allocatedSize {
        allocatedSize := allocatedSize + remain;
      } else {
        allocatedSize := allocatedSize + 1;
      }
      ok, q := Resize(heap, f, p, values, allocatedSize);
    }
  }

  lemma CellsSnoc(values: seq<Value>, v: Value)
    ensures CellsOf(values) + [Scalar(v)] == CellsOf(values + [v])
  {
  }

  /** Writing the next element. */
  method StoreNext(heap: Heap, f: Field, p: Ref, ghost values: seq<Value>, ghost n: nat, size: nat,
        v: Value) returns (q: Ref)
    requires HoldsRoom(heap, f, p, values, n) && size == |values| < n
    ensures HoldsRoom(heap, f, q, values + [v], n)
    ensures OthersKept(heap.next, heap.blocks, p, heap.next, heap.blocks, q)
  {
    Monotone(f.dataSize, size + 1, n);
    q := heap.Store(p, f.dataSize, size, Scalar(v));
    CellsSnoc(values, v);
  }

  lemma PackedStep(f: Field, values: seq<Value>, s: bytes)
    requires f.ltype.Packable() && s != []
    ensures DecPacked(AsStatic(f), values, |values|, s) ==
      if |values| >= PB_SIZE_MAX || DecScalar(f, s).Fail? then None
      else DecPacked(AsStatic(f), values + [DecScalar(f, s).value], |values| + 1, DecScalar(f, s).rest)
  {
    hide DecScalar;
    SameScalar(f, s);
  }

  /** The packed branch: the allocation grows by the estimated number of remaining elements, or by one.
      Every element is written inside the block, and unless the allocator refuses the outcome is that of a
      static array of PB_SIZE_MAX elements. */
  method DecodePackedArray(heap: Heap, substream: IStream, f: Field, p: Ref, ghost before: seq<Value>, count: nat)
    returns (ok: bool, q: Ref, size: nat, ghost values: seq<Value>)
    requires substream.Valid() && heap.wordSize >= 2
    requires f.ltype.Packable() && 0 < f.dataSize <= PB_SIZE_MAX
    requires Holds(heap, f, p, before) && count == |before|
    modifies heap, substream
    ensures substream.Valid() && substream.End() == old(substream.End())
    ensures Holds(heap, f, q, values) && size == |values| && before <= values
      && OthersKept(old(heap.next), old(heap.blocks), p, heap.next, heap.blocks, q)
    ensures var r := DecPacked(AsStatic(f), before, count, old(substream.Rest()));
      (ok ==> r == Some(Items(values, size)) && substream.bytesLeft == 0) && (r.Some? && !heap.refused ==> ok)
  {
    hide DecScalar, DecPacked, Holds, HoldsRoom, OthersKept, AsStatic;
    ghost var s := substream.Rest();
    q, size, values := p, count, before;
    var allocatedSize: nat := count;
    StartsWithRoom(heap, f, p, before);
    while substream.bytesLeft != 0
      invariant substream.Valid() && substream.End() == old(substream.End())
      invariant HoldsRoom(heap, f, q, values, allocatedSize)
        && OthersKept(old(heap.next), old(heap.blocks), p, heap.next, heap.blocks, q)
      invariant size == |values| <= allocatedSize <= PB_SIZE_MAX && before <= values
      invariant DecPacked(AsStatic(f), before, count, s) == DecPacked(AsStatic(f), values, size, substream.Rest())
      decreases substream.bytesLeft
    {
      assert Holds(heap, f, q, values) by { RoomHolds(heap, f, q, values, allocatedSize); }
      ghost var q1, next1, blocks1 := q, heap.next, heap.blocks;
      PackedStep(f, values, substream.Rest());
      if size == PB_SIZE_MAX {
        return false, q, size, values;
      }
      ok, q, allocatedSize := MakeRoom(heap, f, q, values, size, allocatedSize, substream.bytesLeft);
      OthersKeptTwice(old(heap.next), old(heap.blocks), p, next1, blocks1, q1, heap.next, heap.blocks, q);
      if !ok {
        return false, q, size, values;
      }
      var more, v := Decoder.DecodeScalar(substream, f);
      if !more {
        return false, q, size, values;
      }
      ghost var q2 := q;
      q := StoreNext(heap, f, q, values, allocatedSize, size, v);
      OthersKeptTwice(old(heap.next), old(heap.blocks), p, heap.next, heap.blocks, q2, heap.next, heap.blocks, q);
      values := values + [v];
      size := size + 1;
    }
    RoomHolds(heap, f, q, values, allocatedSize);
    PackedEnd(AsStatic(f), values, size);
    ok := true;
  }

  lemma PackedEnd(f: Field, values: seq<Value>, count: nat)
    ensures DecPacked(f, values, count, []) == Some(Items(values, count))
  {
  }

  /** The repeated case of decode_pointer_field, for elements in the array: unless the allocator refuses,
      the array, its count and the stream end up as those of a static array of PB_SIZE_MAX elements. */
  method DecodeRepeated(heap: Heap, stream: IStream, wireType: nat, f: Field, p: Ref, ghost before: seq<Value>,
        count: nat)
    returns (ok: bool, q: Ref, size: nat, ghost values: seq<Value>)
    requires stream.Valid() && heap.wordSize >= 2
    requires f.htype.Repeated? && !f.FixedCount() && !f.ltype.LString? && !f.ltype.LBytes?
    requires 0 < f.dataSize <= PB_SIZE_MAX && WellFormedField(AsStatic(f)) && PlainField(AsStatic(f))
    requires Holds(heap, f, p, before) && count == |before|
    modifies heap, stream
    ensures stream.Valid() && (ok ==> stream.End() == old(stream.End()))
    ensures Holds(heap, f, q, values) && size == |values| && before <= values
    ensures OthersKept(old(heap.next), old(heap.blocks), p, heap.next, heap.blocks, q)
    ensures var r := DecField([AsStatic(f)], Start([Arr(before)]), 0, wireType, old(stream.Rest()));
      (ok ==> r.Ok? && r.value.m == [Arr(values)] && stream.Rest() == r.rest) && (r.Ok? && !heap.refused ==> ok)
  {
    hide DecScalar, DecPacked, DecValue, InitialValue, Holds, HoldsRoom, OthersKept, DecVarint32, WellFormedField,
      PlainField;
    q, size, values := p, count, before;
    StartsWithRoom(heap, f, p, before);
    if wireType == 2 && f.ltype.Packable() {
      var made, substream := MakeSubstream(stream);
      if !made {
        return false, q, size, values;
      }
      ok, q, size, values := DecodePackedArray(heap, substream, f, p, before, count);
      var closed := CloseSubstream(stream, substream);
    } else {
      if size == PB_SIZE_MAX {
        return false, q, size, values;
      }
      ok, q := Resize(heap, f, q, values, size + 1);
      if !ok {
        return false, q, size, values;
      }
      var v;
      ok, v := Decoder.DecodeValue(stream, AsStatic(f), VBool(false));
      ghost var q2 := q;
      q := StoreNext(heap, f, q, values, size + 1, size, v);
      OthersKeptTwice(old(heap.next), old(heap.blocks), p, heap.next, heap.blocks, q2, heap.next, heap.blocks, q);
      values := values + [v];
      RoomHolds(heap, f, q, values, size + 1);
      size := size + 1;
    }
  }
}
