/** The decoder of pb_decode.c as it runs: streams consumed and a struct filled in place, each method
    proved against the functions of DecodeSpec. */
module Decoder {
  import opened Bits
  import opened Wire
  import opened Descriptor
  import opened DecodeSpec
  import opened FieldIter
  import opened IStreams
  import opened RequiredBits
  import Checks

  /** The destination struct. */
  class Struct {
    var slots: seq<Slot>

    constructor (slots: seq<Slot>)
      ensures this.slots == slots
    {
      this.slots := slots;
    }
  }

  /** The local variables `fixed_count_field` and `fixed_count_size` of pb_decode_noinit. */
  class FixedCounter {
    var field: Option<nat>
    var size: nat

    constructor ()
      ensures field == None && size == 0
    {
      field := None;
      size := 0;
    }
  }

  // ------------------------------------------------------------------ field decoders

  /** pb_read of `n` bytes into the destination. */
  method ReadBytes(stream: IStream, n: nat) returns (ok: bool, s: bytes)
    requires stream.Valid()
    modifies stream
    ensures stream.Valid() && stream.End() == old(stream.End()) && ok == (n <= |old(stream.Rest())|)
    ensures ok ==> s == old(stream.Rest())[..n] && stream.Rest() == old(stream.Rest())[n..]
  {
    var buf := new byte[n](_ => 0);
    ok := stream.ReadDirect(buf, n);
    s := buf[..];
  }

  /** pb_dec_bool. */
  method DecBool(stream: IStream) returns (ok: bool, b: bool)
    requires stream.Valid()
    modifies stream
    ensures stream.Valid() && stream.End() == old(stream.End())
    ensures var r := DecVarint32(old(stream.Rest()));
      ok == r.Ok? && (ok ==> b == (r.value != 0) && stream.Rest() == r.rest)
  {
    var value;
    ok, value := DecodeVarint32(stream);
    b := value != 0;
  }

  /** pb_dec_varint. */
  method DecVarintField(stream: IStream, size: nat) returns (ok: bool, dest: int)
    requires stream.Valid()
    modifies stream
    ensures stream.Valid() && stream.End() == old(stream.End())
    ensures var r := DecSigned(size, old(stream.Rest()));
      ok == r.Ok? && (ok ==> dest == r.value && stream.Rest() == r.rest)
  {
    var value;
    dest := 0;
    ok, value := DecodeVarint(stream);
    if !ok {
      return;
    }
    var svalue := if size == 8 then Wrap(8, value) else Wrap(4, value);
    if !LegalSize(size) {
      return false, 0;
    }
    var clamped := Wrap(size, svalue);
    if clamped != svalue {
      return false, 0;
    }
    return true, clamped;
  }

  /** pb_dec_uvarint. */
  method DecUvarintField(stream: IStream, size: nat) returns (ok: bool, dest: nat)
    requires stream.Valid()
    modifies stream
    ensures stream.Valid() && stream.End() == old(stream.End())
    ensures var r := DecUnsigned(size, old(stream.Rest()));
      ok == r.Ok? && (ok ==> dest == r.value && stream.Rest() == r.rest)
  {
    var value;
    dest := 0;
    ok, value := DecodeVarint(stream);
    if !ok {
      return;
    }
    if !LegalSize(size) {
      return false, 0;
    }
    var clamped := Truncate(size, value);
    if clamped != value {
      return false, 0;
    }
    return true, clamped;
  }

  /** pb_dec_svarint. */
  method DecSvarintField(stream: IStream, size: nat) returns (ok: bool, dest: int)
    requires stream.Valid()
    modifies stream
    ensures stream.Valid() && stream.End() == old(stream.End())
    ensures var r := DecZigZag(size, old(stream.Rest()));
      ok == r.Ok? && (ok ==> dest == r.value && stream.Rest() == r.rest)
  {
    var value;
    dest := 0;
    ok, value := DecodeSvarint(stream);
    if !ok {
      return;
    }
    if !LegalSize(size) {
      return false, 0;
    }
    var clamped := Wrap(size, value);
    if clamped != value {
      return false, 0;
    }
    return true, clamped;
  }

  /** pb_dec_bytes. */
  method DecBytesField(stream: IStream, f: Field) returns (ok: bool, dest: bytes)
    requires stream.Valid()
    modifies stream
    ensures stream.Valid() && stream.End() == old(stream.End())
    ensures var r := DecBytes(f, old(stream.Rest()));
      ok == r.Ok? && (ok ==> VBytes(dest) == r.value && stream.Rest() == r.rest)
  {
    var size;
    dest := [];
    ok, size := DecodeVarint32(stream);
    if !ok {
      return;
    }
    if size > PB_SIZE_MAX {
      return false, [];
    }
    var allocSize := size + 1;
    if allocSize > f.dataSize {
      return false, [];
    }
    ok, dest := ReadBytes(stream, size);
  }

  /** pb_dec_string; the addition of the terminator wraps at 32 bits. */
  method DecStringField(stream: IStream, f: Field) returns (ok: bool, dest: bytes)
    requires stream.Valid() && f.dataSize <= PB_SIZE_MAX
    modifies stream
    ensures stream.Valid() && stream.End() == old(stream.End())
    ensures var r := DecString(f, old(stream.Rest()));
      ok == r.Ok? && (ok ==> VBytes(dest) == r.value && stream.Rest() == r.rest)
  {
    var size;
    dest := [];
    ok, size := DecodeVarint32(stream);
    if !ok {
      return;
    }
    var allocSize := if size == 0xFFFF_FFFF then 0 else size + 1;
    if allocSize < size {
      return false, [];
    }
    if allocSize > f.dataSize {
      return false, [];
    }
    ok, dest := ReadBytes(stream, size);
  }

  /** pb_dec_fixed_length_bytes. */
  method DecFixedBytesField(stream: IStream, f: Field) returns (ok: bool, dest: bytes)
    requires stream.Valid()
    modifies stream
    ensures stream.Valid() && stream.End() == old(stream.End())
    ensures var r := DecFixedBytes(f, old(stream.Rest()));
      ok == r.Ok? && (ok ==> VBytes(dest) == r.value && stream.Rest() == r.rest)
  {
    var size;
    dest := [];
    ok, size := DecodeVarint32(stream);
    if !ok {
      return;
    }
    if size > PB_SIZE_MAX {
      return false, [];
    }
    if size == 0 {
      return true, Zeros(f.dataSize);
    }
    if size != f.dataSize {
      return false, [];
    }
    ok, dest := ReadBytes(stream, f.dataSize);
  }

  /** Dispatch through PB_DECODERS, for every type but submessages. */
  method DecodeScalar(stream: IStream, f: Field) returns (ok: bool, v: Value)
    requires stream.Valid() && f.dataSize <= PB_SIZE_MAX
    modifies stream
    ensures stream.Valid() && stream.End() == old(stream.End())
    ensures var r := DecScalar(f, old(stream.Rest())); ok == r.Ok? && (ok ==> v == r.value && stream.Rest() == r.rest)
  {
    hide DecVarint32, DecSigned, DecUnsigned, DecZigZag, DecFixed, DecBytes, DecString, DecFixedBytes;
    v := VBool(false);
    match f.ltype {
      case LBool =>
        var b;
        ok, b := DecBool(stream);
        v := VBool(b);
      case LVarint =>
        var n;
        ok, n := DecVarintField(stream, f.dataSize);
        v := VInt(n);
      case LUVarint =>
        var n;
        ok, n := DecUvarintField(stream, f.dataSize);
        v := VInt(n);
      case LSVarint =>
        var n;
        ok, n := DecSvarintField(stream, f.dataSize);
        v := VInt(n);
      case LFixed32 =>
        var n;
        ok, n := DecodeFixed(stream, 4);
        v := VInt(n);
      case LFixed64 =>
        var n;
        ok, n := DecodeFixed(stream, 8);
        v := VInt(n);
      case LBytes =>
        var s;
        ok, s := DecBytesField(stream, f);
        v := VBytes(s);
      case LString =>
        var s;
        ok, s := DecStringField(stream, f);
        v := VBytes(s);
      case LFixedBytes =>
        var s;
        ok, s := DecFixedBytesField(stream, f);
        v := VBytes(s);
      case LSubmessage => ok := false;
      case LExtension => ok := false;
    }
  }

  /** The packed-array loop of decode_static_field.  Every element is stored below array_size. */
  method DecodePacked(substream: IStream, f: Field, a: seq<Value>, count: nat)
    returns (ok: bool, items: seq<Value>, size: nat)
    requires substream.Valid() && f.dataSize <= PB_SIZE_MAX
    modifies substream
    ensures substream.Valid() && substream.End() == old(substream.End())
    ensures var r := DecPacked(f, a, count, old(substream.Rest()));
      (ok && substream.bytesLeft == 0 <==> r.Some?) && (r.Some? ==> r.value == Items(items, size))
  {
    ghost var s := substream.Rest();
    items, size := a, count;
    while substream.bytesLeft > 0 && size < f.arraySize
      invariant substream.Valid() && substream.End() == old(substream.End())
      invariant DecPacked(f, a, count, s) == DecPacked(f, items, size, substream.Rest())
      decreases substream.bytesLeft
    {
      var more, v := DecodeScalar(substream, f);
      if !more {
        return false, items, size;
      }
      assert size < f.arraySize;
      items := Store(items, size, v);
      size := size + 1;
    }
    ok := true;
  }

  // ------------------------------------------------------------------ defaults

  /** The data part of pb_field_set_to_default. */
  method SetDataToDefault(f: Field) returns (data: Value)
    requires WellFormedField(f) && PlainField(f)
    ensures data == InitialValue(f)
    decreases f
  {
    if f.ltype.LSubmessage? {
      var child := new Struct(seq(|f.ptr.fields|, _ => Shared));
      MessageSetToDefaults(f.ptr.fields, child);
      data := VMsg(child.slots);
    } else if f.ptr.Preset? {
      data := f.ptr.v;
    } else {
      data := ZeroValue(f);
    }
  }

  /** pb_field_set_to_default. */
  method FieldSetToDefault(t: seq<Field>, i: nat, dest: Struct)
    requires i < |t| == |dest.slots| && WellFormedField(t[i]) && PlainField(t[i])
    modifies dest
    ensures dest.slots == old(dest.slots)[i := InitialSlot(t, i)]
    decreases t, 0
  {
    var f := t[i];
    if f.htype.Repeated? {
      dest.slots := dest.slots[i := Arr([])];
    } else if f.htype.Oneof? {
      dest.slots := dest.slots[i := if SharesUnion(t, i) then Shared else Union(0, VBool(false))];
    } else {
      var data := SetDataToDefault(f);
      dest.slots := dest.slots[i := if f.htype.Optional? && !f.Implicit() then Opt(false, data) else Single(data)];
    }
  }

  /** pb_message_set_to_defaults. */
  method MessageSetToDefaults(t: seq<Field>, dest: Struct)
    requires |dest.slots| == |t| && WellFormed(t) && Plain(t)
    modifies dest
    ensures dest.slots == InitialMessage(t)
    decreases t, 1
  {
    hide WellFormedField, InitialSlot;
    assert NonZeroTags(t) by { TableTags(t); }
    if t == [] {
      return;
    }
    var iter := new FieldIterator(t, 0);
    while true
      invariant iter.Canonical() && iter.start == t && fresh(iter)
      invariant |t| == |dest.slots| && forall k :: 0 <= k < iter.pos ==> dest.slots[k] == InitialSlot(t, k)
      decreases |t| - iter.pos
    {
      FieldSetToDefault(t, iter.pos, dest);
      var more := iter.Next();
      if !more { break; }
    }
    assert dest.slots == InitialMessage(t);
  }

  // ------------------------------------------------------------------ one field

  /** pb_dec_submessage.  New array elements are initialised, other submessages continue from what is
      there.  However much of its substream the submessage reads, the stream ends up after it. */
  method DecodeSubmessage(stream: IStream, f: Field, prior: Value) returns (ok: bool, v: Value)
    requires stream.Valid() && f.ltype.LSubmessage? && WellFormedField(f) && PlainField(f)
    modifies stream
    ensures stream.Valid() && stream.End() <= old(stream.End()) && (ok ==> stream.End() == old(stream.End()))
    ensures var r := DecValue(f, if f.htype.Repeated? then InitialValue(f) else prior, old(stream.Rest()));
      ok == r.Ok? && (ok ==> v == r.value && stream.Rest() == r.rest)
    decreases stream.bytesLeft, 0
  {
    hide DecodeNoInit, WellFormed, Plain, DecVarint32, DecScalar, InitialMessage, TypedValue;
    v := VBool(false);
    var made, substream := MakeSubstream(stream);
    if !made {
      return false, v;
    }
    var sub := f.ptr.fields;
    var child := new Struct(if f.htype.Repeated? then seq(|sub|, _ => Shared) else SlotsOf(prior));
    var status;
    if f.htype.Repeated? {
      status := PbDecode(substream, sub, child);
    } else {
      status := PbDecodeNoinit(substream, sub, child);
    }
    var closed := CloseSubstream(stream, substream);
    return status, VMsg(child.slots);
  }

  /** The decoder of any field type. */
  method DecodeValue(stream: IStream, f: Field, prior: Value) returns (ok: bool, v: Value)
    requires stream.Valid() && WellFormedField(f) && PlainField(f)
    modifies stream
    ensures stream.Valid() && stream.End() <= old(stream.End()) && (ok ==> stream.End() == old(stream.End()))
    ensures var r := DecValue(f, if f.htype.Repeated? then InitialValue(f) else prior, old(stream.Rest()));
      ok == r.Ok? && (ok ==> v == r.value && stream.Rest() == r.rest)
    decreases stream.bytesLeft, 1
  {
    hide DecodeNoInit, DecScalar, DecVarint32, WellFormed, Plain;
    if f.ltype.LSubmessage? {
      ok, v := DecodeSubmessage(stream, f, prior);
    } else {
      ok, v := DecodeScalar(stream, f);
    }
  }

  /** pb_decode. */
  method PbDecode(stream: IStream, t: seq<Field>, dest: Struct) returns (ok: bool)
    requires stream.Valid() && WellFormed(t) && Plain(t) && |dest.slots| == |t|
    modifies stream, dest
    ensures stream.Valid() && stream.End() <= old(stream.End()) && (ok ==> stream.End() == old(stream.End()))
    ensures var r := Decode(t, old(stream.Rest()));
      ok == r.Ok? && (ok ==> dest.slots == r.value && stream.Rest() == r.rest)
    decreases stream.bytesLeft, 6
  {
    hide DecodeNoInit, WellFormed, Plain;
    MessageSetToDefaults(t, dest);
    ok := PbDecodeNoinit(stream, t, dest);
  }

  /** decode_static_field, on the state `st` of the specification. */
  method DecodeStaticField(stream: IStream, wireType: nat, iter: FieldIterator, dest: Struct, counter: FixedCounter,
      ghost st: State)
    returns (ok: bool)
    requires stream.Valid() && iter.Valid() && WellFormed(iter.start) && Plain(iter.start) && iter.pos < |iter.start|
    requires iter.pSize == OwnCounter <==> iter.start[iter.pos].FixedCount()
    requires st.m == dest.slots && st.fixedCount == counter.size
    modifies stream, dest, counter`size
    ensures stream.Valid() && stream.End() <= old(stream.End()) && (ok ==> stream.End() == old(stream.End()))
    ensures var r := DecField(iter.start, st, iter.pos, wireType, old(stream.Rest()));
      ok == r.Ok? && (ok ==> dest.slots == r.value.m && counter.size == r.value.fixedCount && stream.Rest() == r.rest)
    decreases stream.bytesLeft, 2
  {
    hide DecValue, DecVarint32, WellFormed, Plain, PlainField, InitialValue, DecPacked, Store;
    var t, i := iter.start, iter.pos;
    var f := t[i];
    assert WellFormedField(f) && PlainField(f) by { FieldFacts(t, i); }
    var v: Value;
    match f.htype {
      case Required =>
        ok, v := DecodeValue(stream, f, ValueOf(At(dest.slots, i)));
        dest.slots := Put(dest.slots, i, Single(v));
      case Optional =>
        var prior := ValueOf(At(dest.slots, i));
        ok, v := DecodeValue(stream, f, prior);
        dest.slots := Put(dest.slots, i, if f.Implicit() then Single(v) else Opt(true, v));
      case Repeated =>
        var a := ItemsOf(At(dest.slots, i));
        var size := if iter.pSize == OwnCounter then counter.size else |a|;
        if wireType == 2 && f.ltype.Packable() {
          ok := DecodePackedField(stream, t, i, dest, counter, a, size, st);
        } else {
          if size >= f.arraySize {
            return false;
          }
          ok, v := DecodeValue(stream, f, VBool(false));
          dest.slots := Put(dest.slots, i, Arr(Store(a, size, v)));
          if iter.pSize == OwnCounter { counter.size := size + 1; }
        }
      case Oneof =>
        var prior := SetDataToDefault(f);
        ok, v := DecodeValue(stream, f, prior);
        dest.slots := Put(dest.slots, Leader(t, i), Union(f.tag, v));
    }
  }

  /** The packed branch of decode_static_field. */
  method DecodePackedField(stream: IStream, t: seq<Field>, i: nat, dest: Struct, counter: FixedCounter,
      a: seq<Value>, count: nat, ghost st: State)
    returns (ok: bool)
    requires stream.Valid() && i < |t| && WellFormedField(t[i])
    requires t[i].htype.Repeated? && t[i].ltype.Packable()
    requires st.m == dest.slots && st.fixedCount == counter.size && a == ItemsOf(At(st.m, i))
      && count == CountOf(t, st, i)
    modifies stream, dest, counter`size
    ensures stream.Valid() && stream.End() <= old(stream.End()) && (ok ==> stream.End() == old(stream.End()))
    ensures var r := DecField(t, st, i, 2, old(stream.Rest()));
      ok == r.Ok? && (ok ==> dest.slots == r.value.m && counter.size == r.value.fixedCount && stream.Rest() == r.rest)
  {
    hide DecValue, DecVarint32, WellFormed, Plain, PlainField, InitialValue, DecPacked, Store;
    var made, substream := MakeSubstream(stream);
    if !made {
      return false;
    }
    var status, items, size := DecodePacked(substream, t[i], a, count);
    dest.slots := Put(dest.slots, i, Arr(items));
    if t[i].FixedCount() { counter.size := size; }
    if substream.bytesLeft != 0 {
      return false;
    }
    var closed := CloseSubstream(stream, substream);
    return status;
  }

  // ------------------------------------------------------------------ the message loop

  /** The check "Check that all required fields were present" of pb_decode_noinit: the iterator is walked
      to the end of the table to count the required fields, then the bitmap is compared. */
  method RequiredPresent(iter: FieldIterator, seen0: nat, seen1: nat, ghost seen: set<nat>) returns (ok: bool)
    requires iter.Valid()
    requires WordFor(iter.start, seen, 0, seen0) && WordFor(iter.start, seen, 1, seen1)
    modifies iter
    ensures ok == RequiredDone(iter.start, seen)
  {
    hide RequiredDone, WordFor, SeenIndex;
    var t := iter.start;
    var count, lastRequired: bool;
    while true
      invariant iter.Valid()
      decreases |t| - iter.pos
    {
      count := iter.requiredFieldIndex;
      lastRequired := if iter.pos < |t| then t[iter.pos].htype.Required? else true;
      var more := iter.Next();
      if !more { break; }
    }
    if lastRequired && TagAt(t, iter.pos) != 0 {
      count := count + 1;
    }
    assert count == RequiredBefore(t, |t|);
    if count > PB_MAX_REQUIRED_FIELDS {
      count := PB_MAX_REQUIRED_FIELDS;
    }
    AllSeen(t, seen);
    var words := count / 32;
    var bits := count % 32;
    WordTest(t, seen, 0, seen0, if count >= 32 then 32 else count);
    if count >= 32 { WordTest(t, seen, 1, seen1, count - 32); }
    assert Shr(0xFFFF_FFFF, 0) == 0xFFFF_FFFF;
    if count > 0 {
      if words >= 1 && seen0 != 0xFFFF_FFFF {
        return false;
      }
      if words >= 2 && seen1 != 0xFFFF_FFFF {
        return false;
      }
      if bits != 0 && (if words == 0 then seen0 else seen1) != Shr(0xFFFF_FFFF, 32 - bits) {
        return false;
      }
    }
    return true;
  }

  /** pb_decode_delimited. */
  method PbDecodeDelimited(stream: IStream, t: seq<Field>, dest: Struct) returns (ok: bool)
    requires stream.Valid() && WellFormed(t) && Plain(t) && |dest.slots| == |t|
    modifies stream, dest
    ensures stream.Valid() && (ok ==> stream.End() == old(stream.End()))
    ensures var r := DecodeDelimited(t, old(stream.Rest()));
      ok == r.Ok? && (ok ==> dest.slots == r.value && stream.Rest() == r.rest)
  {
    hide Decode, WellFormed, Plain, DecVarint32;
    var made, substream := MakeSubstream(stream);
    if !made {
      return false;
    }
    ok := PbDecode(substream, t, dest);
    var closed := CloseSubstream(stream, substream);
  }

  /** What the local variables of pb_decode_noinit say about the state of the specification. */
  ghost predicate Tracks(t: seq<Field>, st: State, dest: Struct, counter: FixedCounter, fieldsSeen: array<nat>)
    reads dest, counter, fieldsSeen
  {
    && st.m == dest.slots
    && st.fixed == counter.field && st.fixedCount == counter.size
    && (st.fixed.Some? ==> st.fixed.value < |t|)
    && fieldsSeen.Length == 2
    && WordFor(t, st.seen, 0, fieldsSeen[0]) && WordFor(t, st.seen, 1, fieldsSeen[1])
  }

  lemma NothingSeen(t: seq<Field>, w: nat)
    ensures WordFor(t, {}, w, 0)
  {
    forall b: nat ensures !TestBit(0, b) { ZeroBit(b); }
  }

  /** Before the payload: a fixed-count field gets the decoder's own counter, if the previous one is
      complete. */
  method EnterField(iter: FieldIterator, counter: FixedCounter, ghost st: State) returns (ok: bool)
    requires iter.Valid() && iter.pos < |iter.start|
    requires st.fixed == counter.field && st.fixedCount == counter.size
    requires st.fixed.Some? ==> st.fixed.value < |iter.start|
    requires iter.pSize == OwnCounter ==> counter.field == Some(iter.pos)
    modifies iter`pSize, counter
    ensures iter.Valid()
    ensures var r := Enter(iter.start, st, iter.pos);
      ok == r.Some? && (ok ==> r.value == st.(fixed := counter.field, fixedCount := counter.size))
    ensures ok ==> (iter.pSize == OwnCounter <==> iter.start[iter.pos].FixedCount())
    ensures ok && iter.pSize == OwnCounter ==> counter.field == Some(iter.pos)
    ensures ok && counter.field.Some? ==> counter.field.value < |iter.start|
  {
    var t := iter.start;
    if !t[iter.pos].htype.Oneof? { SizePosOutsideUnions(t, iter.base, iter.pos); }
    if t[iter.pos].htype.Repeated? && iter.pSize == InStruct(iter.pData) {
      if counter.field != Some(iter.pos) {
        if counter.field.Some? && counter.size != t[counter.field.value].arraySize {
          return false;
        }
        counter.field := Some(iter.pos);
        counter.size := 0;
      }
      iter.pSize := OwnCounter;
    }
    return true;
  }

  /** Before the payload: the bit of a required field is set, for the first 64 of them. */
  method MarkSeen(iter: FieldIterator, fieldsSeen: array<nat>, ghost seen: set<nat>)
    requires iter.Valid() && iter.pos < |iter.start| && fieldsSeen.Length == 2
    requires WordFor(iter.start, seen, 0, fieldsSeen[0]) && WordFor(iter.start, seen, 1, fieldsSeen[1])
    modifies fieldsSeen
    ensures var seen' := if iter.start[iter.pos].htype.Required? then seen + {iter.pos} else seen;
      WordFor(iter.start, seen', 0, fieldsSeen[0]) && WordFor(iter.start, seen', 1, fieldsSeen[1])
  {
    hide WordFor, BitOr, Shl;
    var t, i, k := iter.start, iter.pos, iter.requiredFieldIndex;
    if t[i].htype.Required? {
      if k / 32 != 0 { OtherWord(t, seen, 0, fieldsSeen[0], i); }
      if k / 32 != 1 { OtherWord(t, seen, 1, fieldsSeen[1], i); }
      if k < PB_MAX_REQUIRED_FIELDS {
        SetBit(t, seen, k / 32, fieldsSeen[k / 32], i);
        fieldsSeen[k / 32] := BitOr(fieldsSeen[k / 32], Shl(1, k % 32));
      }
    }
  }

  /** One declared field: the part of the loop of pb_decode_noinit after the search. */
  method DecodeFound(stream: IStream, wireType: nat, iter: FieldIterator, dest: Struct, counter: FixedCounter,
      fieldsSeen: array<nat>, ghost st: State)
    returns (ok: bool, ghost st': State)
    requires stream.Valid() && iter.Valid() && WellFormed(iter.start) && Plain(iter.start) && iter.pos < |iter.start|
    requires iter.pSize == OwnCounter ==> counter.field == Some(iter.pos)
    requires Tracks(iter.start, st, dest, counter, fieldsSeen)
    modifies stream, iter`pSize, dest, counter, fieldsSeen
    ensures stream.Valid() && stream.End() <= old(stream.End()) && (ok ==> stream.End() == old(stream.End()))
    ensures iter.Valid() && (ok ==> Tracks(iter.start, st', dest, counter, fieldsSeen))
    ensures ok && iter.pSize == OwnCounter ==> counter.field == Some(iter.pos)
    ensures var e := Enter(iter.start, st, iter.pos);
      var r := if e.Some? then DecField(iter.start, e.value, iter.pos, wireType, old(stream.Rest())) else Fail;
      ok == r.Ok? && (ok ==> st' == r.value && stream.Rest() == r.rest)
    decreases stream.bytesLeft, 3
  {
    hide DecField, WordFor, WellFormed, Plain;
    st' := st;
    ghost var s := stream.Rest();
    ok := EnterField(iter, counter, st);
    if !ok {
      return;
    }
    ghost var st1 := Enter(iter.start, st, iter.pos).value;
    MarkSeen(iter, fieldsSeen, st.seen);
    ok := DecodeStaticField(stream, wireType, iter, dest, counter, st1);
    if ok {
      st' := DecField(iter.start, st1, iter.pos, wireType, s).value;
      Checks.FieldSees(iter.start, st1, iter.pos, wireType, s);
      Checks.FieldCounts(iter.start, st1, iter.pos, wireType, s);
      assert st'.seen == if iter.start[iter.pos].htype.Required? then st.seen + {iter.pos} else st.seen;
    }
  }

  /** One turn of the loop of pb_decode_noinit, after its key. */
  method DecodeTurn(stream: IStream, wireType: nat, tag: nat, iter: FieldIterator, dest: Struct,
      counter: FixedCounter, fieldsSeen: array<nat>, ghost st: State)
    returns (ok: bool, ghost st': State)
    requires stream.Valid() && iter.Valid() && WellFormed(iter.start) && Plain(iter.start)
    requires iter.pSize == OwnCounter ==> counter.field == Some(iter.pos)
    requires Tracks(iter.start, st, dest, counter, fieldsSeen)
    modifies stream, iter, dest, counter, fieldsSeen
    ensures stream.Valid() && stream.End() <= old(stream.End()) && (ok ==> stream.End() == old(stream.End()))
    ensures iter.Valid() && (ok ==> Tracks(iter.start, st', dest, counter, fieldsSeen))
    ensures ok && iter.pSize == OwnCounter ==> counter.field == Some(iter.pos)
    ensures var r := Step(iter.start, st, tag, wireType, old(stream.Rest()));
      ok == r.Ok? && (ok ==> st' == r.value && stream.Rest() == r.rest)
    decreases stream.bytesLeft, 4
  {
    hide DecField, WordFor, WellFormed, Plain, DecVarint32, SkipField, Find, Enter, Step;
    st' := st;
    assert DistinctTags(iter.start) by { TableTags(iter.start); }
    StepCases(iter.start, st, tag, wireType, stream.Rest());
    var found := iter.Search(tag);
    if !found {
      ok := SkipFieldOf(stream, wireType);
    } else if iter.start == [] {
      // the terminator of an empty table, with its type 0: a required bool
      var b;
      ok, b := DecBool(stream);
    } else {
      FindOwn(iter.start, iter.pos);
      ok, st' := DecodeFound(stream, wireType, iter, dest, counter, fieldsSeen, st);
    }
  }

  /** pb_decode_noinit. */
  method PbDecodeNoinit(stream: IStream, t: seq<Field>, dest: Struct) returns (ok: bool)
    requires stream.Valid() && WellFormed(t) && Plain(t)
    modifies stream, dest
    ensures stream.Valid() && stream.End() <= old(stream.End()) && (ok ==> stream.End() == old(stream.End()))
    ensures var r := DecodeNoInit(t, old(dest.slots), old(stream.Rest()));
      ok == r.Ok? && (ok ==> dest.slots == r.value && stream.Rest() == r.rest)
    decreases stream.bytesLeft, 5
  {
    hide WordFor, WellFormed, Plain, DecVarint32, RequiredDone, Loop, Step;
    assert NonZeroTags(t) by { TableTags(t); }
    ghost var s0, st := stream.Rest(), Start(dest.slots);
    var fieldsSeen := new nat[2](_ => 0);
    NothingSeen(t, 0);
    NothingSeen(t, 1);
    var counter := new FixedCounter();
    var iter := new FieldIterator(t, 0);
    while stream.bytesLeft != 0
      invariant stream.Valid() && stream.End() == old(stream.End()) && stream.bytesLeft <= old(stream.bytesLeft)
      invariant iter.Valid() && iter.start == t
      invariant iter.pSize == OwnCounter ==> counter.field == Some(iter.pos)
      invariant Tracks(t, st, dest, counter, fieldsSeen)
      invariant Loop(t, st, stream.Rest()) == Loop(t, Start(old(dest.slots)), s0)
      decreases stream.bytesLeft
    {
      LoopKey(t, st, stream.Rest());
      var more, wireType, tag, eof := DecodeTag(stream);
      if !more {
        if eof { break; }
        return false;
      }
      ok, st := DecodeTurn(stream, wireType, tag, iter, dest, counter, fieldsSeen, st);
      if !ok {
        return false;
      }
    }
    assert Loop(t, Start(old(dest.slots)), s0) == Ok(st, stream.Rest()) by { LoopEmpty(t, st); }
    if counter.field.Some? && counter.size != t[counter.field.value].arraySize {
      return false;
    }
    ok := RequiredPresent(iter, fieldsSeen[0], fieldsSeen[1], st.seen);
  }
}
