/** The encoder of pb_encode.c as it runs: the same code measures (on a stream without a buffer) and
    writes (on one with), each method proved against the functions of EncodeSpec. */
module Encoder {
  import opened Wire
  import opened Descriptor
  import opened EncodeSpec
  import opened FieldIter
  import opened OStreams

  // ------------------------------------------------------------------ scalars

  /** The loop of pb_enc_string: the length up to the first zero byte, at most the buffer size. */
  method StringLength(s: bytes, maxSize: nat) returns (size: nat)
    requires |s| <= maxSize
    ensures size == |CStr(s)| && s[..size] == CStr(s)
  {
    size := 0;
    while size < |s| && s[size] != 0
      invariant size <= |s| && forall k :: 0 <= k < size ==> s[k] != 0
    {
      size := size + 1;
    }
    CStrIs(s, size);
  }

  lemma {:induction false} CStrIs(s: bytes, n: nat)
    requires n <= |s| && (n < |s| ==> s[n] == 0) && forall k :: 0 <= k < n ==> s[k] != 0
    ensures CStr(s) == s[..n]
  {
    if n == 0 {
    } else {
      CStrIs(s[1..], n - 1);
    }
  }

  /** The PB_ENCODERS entry of every type but submessages. */
  method EncodeScalar(stream: OStream, f: Field, v: Value) returns (ok: bool)
    requires stream.Now().Valid() && TypedValue(f, v, Loose) && f.dataSize <= PB_SIZE_MAX
    requires !f.ltype.LSubmessage? && !f.ltype.LExtension?
    modifies stream, stream.Memory()
    ensures stream.Now().Valid() && stream.buf == old(stream.buf)
    ensures Did(old(stream.Now()), stream.Now(), ok, EncScalar(f, v))
  {
    hide EncVarint, LittleEndian, EncString, CStr;
    match f.ltype {
      case LBool => ok := EncodeVarint(stream, if v.b then 1 else 0);
      case LVarint =>
        if !LegalSize(f.dataSize) { return false; }
        ok := EncodeVarint(stream, ToU64(v.n));
      case LUVarint =>
        if !LegalSize(f.dataSize) { return false; }
        ok := EncodeVarint(stream, v.n);
      case LSVarint =>
        if !LegalSize(f.dataSize) { return false; }
        ok := EncodeSvarint(stream, v.n);
      case LFixed32 => ok := EncodeFixed(stream, v.n, 4);
      case LFixed64 => ok := EncodeFixed(stream, v.n, 8);
      case LBytes =>
        if |v.s| + 1 > f.dataSize { return false; }
        ok := EncodeString(stream, v.s);
      case LString =>
        var size := StringLength(v.s, f.dataSize);
        ok := EncodeString(stream, v.s[..size]);
      case LFixedBytes => ok := EncodeString(stream, v.s);
    }
  }

  // ------------------------------------------------------------------ arrays

  lemma PackedFrom(f: Field, items: seq<Value>, i: nat)
    requires i <= |items|
    ensures EncPacked(f, items[i..]) ==
      if i == |items| then Some([]) else Joined(EncScalar(f, items[i]), EncPacked(f, items[i + 1..]))
  {
    hide EncScalar;
    if i < |items| { assert items[i..][1..] == items[i + 1..]; }
  }

  /** Writing all elements, one after the other: the two loops over a packed array, on the sizing stream
      and on the real one. */
  method EncodeElements(stream: OStream, f: Field, items: seq<Value>) returns (ok: bool)
    requires stream.Now().Valid() && AllTyped(f, items) && f.dataSize <= PB_SIZE_MAX && f.ltype.Packable()
    modifies stream, stream.Memory()
    ensures stream.Now().Valid() && stream.buf == old(stream.buf)
    ensures Did(old(stream.Now()), stream.Now(), ok, EncPacked(f, items))
  {
    hide EncScalar, TypedValue, EncPacked, Did, Joined;
    ghost var v, done := stream.Now(), Some([]);
    var i := 0;
    DidNothing(v);
    JoinedWithNothing(EncPacked(f, items));
    assert items[0..] == items;
    while i < |items|
      invariant i <= |items| && stream.Now().Valid() && stream.buf == old(stream.buf)
      invariant Did(v, stream.Now(), true, done)
      invariant EncPacked(f, items) == Joined(done, EncPacked(f, items[i..]))
    {
      ghost var v1, e, rest := stream.Now(), EncScalar(f, items[i]), EncPacked(f, items[i + 1..]);
      PackedFrom(f, items, i);
      JoinedTwice(done, e, rest);
      ok := EncodeScalar(stream, f, items[i]);
      DidThen(v, v1, stream.Now(), done, ok, e);
      if !ok {
        DidNot(v, stream.Now(), Joined(done, e), rest);
        return;
      }
      done := Joined(done, e);
      i := i + 1;
    }
    PackedFrom(f, items, i);
    JoinedWithNothing(done);
    return true;
  }

  /** The data size of a packed array: computed for fixed-size types, measured for the others. */
  method PackedSize(f: Field, items: seq<Value>) returns (ok: bool, size: nat)
    requires AllTyped(f, items) && f.dataSize <= PB_SIZE_MAX && f.ltype.Packable()
    ensures var e := EncPacked(f, items); ok == e.Some? && (ok ==> size == |e.value|)
  {
    hide EncPacked, TypedValue;
    if f.ltype.LFixed32? {
      FixedPacked(f, items, 4);
      return true, 4 * |items|;
    } else if f.ltype.LFixed64? {
      FixedPacked(f, items, 8);
      return true, 8 * |items|;
    }
    var sizestream := new OStream.Sizing();
    ok := EncodeElements(sizestream, f, items);
    size := sizestream.bytesWritten;
  }

  lemma {:induction false} FixedPacked(f: Field, items: seq<Value>, n: nat)
    requires (f.ltype.LFixed32? && n == 4) || (f.ltype.LFixed64? && n == 8)
    ensures EncPacked(f, items).Some? && |EncPacked(f, items).value| == n * |items|
  {
    if items == [] {
    } else {
      FixedPacked(f, items[1..], n);
    }
  }

  /** The packed branch of encode_array. */
  method EncodePackedArray(stream: OStream, f: Field, items: seq<Value>) returns (ok: bool)
    requires stream.Now().Valid() && AllTyped(f, items) && f.tag <= PB_SIZE_MAX && f.dataSize <= PB_SIZE_MAX
    requires f.ltype.Packable()
    modifies stream, stream.Memory()
    ensures stream.Now().Valid() && stream.buf == old(stream.buf)
    ensures var e := EncPacked(f, items);
      Did(old(stream.Now()), stream.Now(), ok, if e.Some? then Some(EncKey(f.tag, 2) + EncString(e.value)) else None)
  {
    hide EncPacked, TypedValue, Did, EncVarint, Joined;
    ghost var v, key, e := stream.Now(), Some(EncKey(f.tag, 2)), EncPacked(f, items);
    ghost var len := if e.Some? then Some(EncVarint(ToU64(|e.value|))) else None;
    PackedJoined(f, items);
    ok := EncodeTag(stream, 2, f.tag);
    if !ok {
      DidNot(v, stream.Now(), key, Joined(len, e));
      return;
    }
    ghost var v1 := stream.Now();
    var measured, size := PackedSize(f, items);
    if !measured {
      DidNot(v1, v1, None, e) by { DidFail(v1); }
      DidThen(v, v1, v1, key, false, Joined(len, e));
      return false;
    }
    ok := EncodeVarint(stream, ToU64(size));
    DidThen(v, v1, stream.Now(), key, ok, len);
    JoinedTwice(key, len, e);
    if !ok {
      DidNot(v, stream.Now(), Joined(key, len), e);
      return;
    }
    ghost var v2 := stream.Now();
    if stream.buf == null {
      stream.Count(size);
      DidCount(v2, stream.Now(), e);
      ok := true;
    } else {
      ok := EncodeElements(stream, f, items);
    }
    DidThen(v, v2, stream.Now(), Joined(key, len), ok, e);
  }

  lemma PackedJoined(f: Field, items: seq<Value>)
    ensures var e := EncPacked(f, items);
      Joined(Some(EncKey(f.tag, 2)), Joined(if e.Some? then Some(EncVarint(ToU64(|e.value|))) else None, e))
      == if e.Some? then Some(EncKey(f.tag, 2) + EncString(e.value)) else None
  {
  }

  lemma DidFail(v: View)
    requires v.Valid()
    ensures Did(v, v, false, None)
  {
  }

  lemma DidCount(v: View, v': View, e: Option<bytes>)
    requires e.Some? && !v.writing && v' == v.(bytesWritten := v.bytesWritten + |e.value|)
    ensures Did(v, v', true, e)
  {
  }

  // ------------------------------------------------------------------ proto3 defaults

  /** pb_check_proto3_default_value, for the data of a field without a has_ flag. */
  method CheckDefaultData(f: Field, v: Value) returns (b: bool)
    requires WellFormedField(f) && PlainField(f) && TypedValue(f, v, Loose)
    ensures b == DefaultData(f, v)
    decreases f, 0
  {
    match f.ltype {
      case LBool => b := !v.b;
      case LBytes => b := |v.s| == 0;
      case LString => b := |v.s| == 0 || v.s[0] == 0;
      case LFixedBytes => b := f.dataSize == 0;
      case LSubmessage => b := CheckAllDefault(f.ptr.fields, v.slots);
      case _ => b := IntOf(v) == 0;
    }
  }

  /** The loop of pb_check_proto3_default_value over the fields of a submessage. */
  method CheckAllDefault(t: seq<Field>, m: seq<Slot>) returns (b: bool)
    requires WellFormed(t) && Plain(t) && Typed(t, m, Loose)
    ensures b == AllDefault(t, m)
    decreases t, 1
  {
    hide WellFormed, Plain, Typed, DefaultSlot;
    assert NonZeroTags(t) by { TableTags(t); }
    if t == [] {
      return true;
    }
    var iter := new FieldIterator(t, 0);
    while true
      invariant iter.Canonical() && iter.start == t && fresh(iter)
      invariant forall k :: 0 <= k < iter.pos ==> DefaultSlot(t, m, k)
      decreases |t| - iter.pos
    {
      var isDefault := CheckDefault(t, m, iter.pos);
      if !isDefault {
        return false;
      }
      var more := iter.Next();
      if !more { break; }
    }
    return true;
  }

  /** pb_check_proto3_default_value. */
  method CheckDefault(t: seq<Field>, m: seq<Slot>, i: nat) returns (b: bool)
    requires WellFormed(t) && Plain(t) && Typed(t, m, Loose) && i < |t|
    ensures b == DefaultSlot(t, m, i)
    decreases t, 0
  {
    hide WellFormed, Plain, Typed, DefaultData, WellFormedField, PlainField, TypedValue;
    var f := t[i];
    FieldOf(t, m, i);
    var x := SlotOf(t, m, i);
    match f.htype {
      case Required => b := false;
      case Repeated => b := !f.FixedCount() && |x.items| == 0;
      case Oneof => b := x.which == 0;
      case Optional =>
        if f.Implicit() { b := CheckDefaultData(f, x.v); } else { b := !x.has; }
    }
  }

  // ------------------------------------------------------------------ messages

  /** pb_encode_submessage: measure, write the length, then write for real through a substream that may
      not grow beyond the measured size.  The second pass always writes exactly that size. */
  method EncodeSubmessage(stream: OStream, t: seq<Field>, m: seq<Slot>) returns (ok: bool)
    requires stream.Now().Valid() && WellFormed(t) && Plain(t) && Typed(t, m, Loose) && Complete(t, m)
    modifies stream, stream.Memory()
    ensures stream.Now().Valid() && stream.buf == old(stream.buf)
    ensures Did(old(stream.Now()), stream.Now(), ok, StringOf(EncMessage(t, m)))
    decreases t, 3
  {
    hide EncMessage, WellFormed, Plain, Typed, Complete, EncVarint, Did;
    ghost var v, e := stream.Now(), EncMessage(t, m);
    var substream := new OStream.Sizing();
    ghost var s0 := substream.Now();
    ok := PbEncode(substream, t, m);
    Measured(s0, substream.Now(), ok, e);
    if !ok {
      DidFail(v);
      return;
    }
    var size := substream.bytesWritten;
    ok := EncodeVarint(stream, ToU64(size));
    ghost var v1, len := stream.Now(), Some(EncVarint(ToU64(size)));
    assert StringOf(e) == Joined(len, e);
    if !ok {
      DidNot(v, v1, len, e);
      return;
    }
    if stream.buf == null {
      stream.Count(size);
      DidCount(v1, stream.Now(), e);
      DidThen(v, v1, stream.Now(), len, true, e);
      return true;
    }
    ok := WriteMeasured(stream, substream, t, m, size);
    DidThen(v, v1, stream.Now(), len, ok, e);
  }

  /** The second pass of pb_encode_submessage, into a buffer. */
  method WriteMeasured(stream: OStream, substream: OStream, t: seq<Field>, m: seq<Slot>, size: nat) returns (ok: bool)
    requires stream.Now().Valid() && WellFormed(t) && Plain(t) && Typed(t, m, Loose) && Complete(t, m)
    requires stream != substream && stream.buf != null && EncMessage(t, m).Some? && size == |EncMessage(t, m).value|
    modifies stream, stream.Memory(), substream
    ensures stream.Now().Valid() && stream.buf == old(stream.buf)
    ensures Did(old(stream.Now()), stream.Now(), ok, EncMessage(t, m))
    decreases t, 2, 1
  {
    hide EncMessage, WellFormed, Plain, Typed, Complete, Did;
    ghost var v, e := stream.Now(), EncMessage(t, m);
    if stream.bytesWritten + size > stream.maxSize {
      DidNoRoom(v, e);
      return false;
    }
    substream.buf := stream.buf;
    substream.pos := stream.pos;
    substream.maxSize := size;
    substream.bytesWritten := 0;
    ghost var s1 := substream.Now();
    ok := PbEncode(substream, t, m);
    SecondPass(v, s1, substream.Now(), ok, e.value);
    stream.bytesWritten := stream.bytesWritten + substream.bytesWritten;
    stream.pos := substream.pos;
    // "submsg size changed" cannot happen
    assert substream.bytesWritten == size;
    if substream.bytesWritten != size { ok := false; }
  }

  /** A length-delimited optional encoding. */
  function StringOf(e: Option<bytes>): Option<bytes> {
    if e.Some? then Some(EncString(e.value)) else None
  }

  lemma Measured(v: View, v': View, ok: bool, e: Option<bytes>)
    requires Did(v, v', ok, e) && !v.writing && v.bytesWritten == 0
    ensures ok == e.Some? && (ok ==> v'.bytesWritten == |e.value|)
  {
  }

  lemma DidNoRoom(v: View, e: Option<bytes>)
    requires e.Some? && !v.Room(|e.value|) && v.Valid()
    ensures Did(v, v, false, e)
  {
  }

  /** In a substream of exactly the measured size the second pass succeeds, and what it does to the
      memory is what the stream itself would have done. */
  lemma SecondPass(v: View, s1: View, s2: View, ok: bool, e: bytes)
    requires v.Valid() && v.writing && v.Room(|e|) && s1 == View(true, v.mem, v.pos, |e|, 0)
    requires Did(s1, s2, ok, Some(e))
    ensures ok && s2.bytesWritten == |e|
    ensures var v' := View(true, s2.mem, s2.pos, v.maxSize, v.bytesWritten + s2.bytesWritten);
      v'.Valid() && Did(v, v', true, Some(e))
  {
  }

  /** The payload of one field. */
  method EncodeValue(stream: OStream, f: Field, x: Value) returns (ok: bool)
    requires stream.Now().Valid() && WellFormedField(f) && PlainField(f) && TypedValue(f, x, Loose)
      && CompleteValue(f, x)
    modifies stream, stream.Memory()
    ensures stream.Now().Valid() && stream.buf == old(stream.buf)
    ensures Did(old(stream.Now()), stream.Now(), ok, EncValue(f, x))
    decreases f, 0
  {
    hide Did, WellFormed, Plain, Typed, Complete, EncMessage, EncScalar, EncString;
    if f.ltype.LSubmessage? {
      ok := EncodeSubmessage(stream, f.ptr.fields, x.slots);
    } else {
      ok := EncodeScalar(stream, f, x);
    }
  }

  /** A field that is present: pb_encode_tag_for_field and the payload. */
  method EncodePresent(stream: OStream, f: Field, x: Value) returns (ok: bool)
    requires stream.Now().Valid() && WellFormedField(f) && PlainField(f) && TypedValue(f, x, Loose)
      && CompleteValue(f, x)
    modifies stream, stream.Memory()
    ensures stream.Now().Valid() && stream.buf == old(stream.buf)
    ensures Did(old(stream.Now()), stream.Now(), ok, EncPresent(f, x))
    decreases f, 1
  {
    hide Did, EncKey, EncValue, TypedValue, CompleteValue, WellFormed;
    ghost var v, key, e := stream.Now(), Some(EncKeyOf(f)), EncValue(f, x);
    assert EncPresent(f, x) == Joined(key, e);
    ok := EncodeTag(stream, f.ltype.WireType(), f.tag);
    if !ok {
      DidNot(v, stream.Now(), key, e);
      return;
    }
    ghost var v1 := stream.Now();
    ok := EncodeValue(stream, f, x);
    DidThen(v, v1, stream.Now(), key, ok, e);
  }

  lemma EachFrom(f: Field, items: seq<Value>, i: nat)
    requires i <= |items| && !f.ltype.LExtension?
    ensures EncEach(f, items[i..]) ==
      if i == |items| then Some([]) else Joined(EncPresent(f, items[i]), EncEach(f, items[i + 1..]))
  {
    hide EncPresent;
    if i < |items| { assert items[i..][1..] == items[i + 1..]; }
  }

  /** The unpacked branch of encode_array. */
  method EncodeEach(stream: OStream, f: Field, items: seq<Value>) returns (ok: bool)
    requires stream.Now().Valid() && WellFormedField(f) && PlainField(f) && AllTyped(f, items)
    requires forall k :: 0 <= k < |items| ==> CompleteValue(f, items[k])
    modifies stream, stream.Memory()
    ensures stream.Now().Valid() && stream.buf == old(stream.buf)
    ensures Did(old(stream.Now()), stream.Now(), ok, EncEach(f, items))
    decreases f, 2
  {
    hide Did, EncPresent, TypedValue, CompleteValue, WellFormedField, EncEach, Joined;
    ghost var v, done := stream.Now(), Some([]);
    var i := 0;
    DidNothing(v);
    JoinedWithNothing(EncEach(f, items));
    assert items[0..] == items;
    while i < |items|
      invariant i <= |items| && stream.Now().Valid() && stream.buf == old(stream.buf)
      invariant Did(v, stream.Now(), true, done)
      invariant EncEach(f, items) == Joined(done, EncEach(f, items[i..]))
    {
      ghost var v1, e, rest := stream.Now(), EncPresent(f, items[i]), EncEach(f, items[i + 1..]);
      EachFrom(f, items, i);
      JoinedTwice(done, e, rest);
      ok := EncodePresent(stream, f, items[i]);
      DidThen(v, v1, stream.Now(), done, ok, e);
      if !ok {
        DidNot(v, stream.Now(), Joined(done, e), rest);
        return;
      }
      done := Joined(done, e);
      i := i + 1;
    }
    EachFrom(f, items, i);
    JoinedWithNothing(done);
    return true;
  }

  /** encode_array. */
  method EncodeArray(stream: OStream, f: Field, items: seq<Value>) returns (ok: bool)
    requires stream.Now().Valid() && WellFormedField(f) && PlainField(f) && AllTyped(f, items)
    requires forall k :: 0 <= k < |items| ==> CompleteValue(f, items[k])
    modifies stream, stream.Memory()
    ensures stream.Now().Valid() && stream.buf == old(stream.buf)
    ensures Did(old(stream.Now()), stream.Now(), ok, EncArray(f, items))
    decreases f, 3
  {
    hide Did, EncPresent, TypedValue, CompleteValue, WellFormed, EncEach, EncPacked, EncKey, EncString;
    if |items| == 0 {
      DidNothing(stream.Now());
      return true;
    }
    if |items| > f.arraySize {
      DidFail(stream.Now());
      return false;
    }
    if f.ltype.Packable() {
      ok := EncodePackedArray(stream, f, items);
    } else {
      ok := EncodeEach(stream, f, items);
    }
  }

  /** encode_basic_field for entry `i`. */
  method EncodeBasicField(stream: OStream, t: seq<Field>, m: seq<Slot>, i: nat) returns (ok: bool)
    requires stream.Now().Valid() && WellFormed(t) && Plain(t) && Typed(t, m, Loose) && Complete(t, m) && i < |t|
    modifies stream, stream.Memory()
    ensures stream.Now().Valid() && stream.buf == old(stream.buf)
    ensures Did(old(stream.Now()), stream.Now(), ok, EncField(t, m, i))
    decreases t, 0
  {
    hide Did, EncPresent, TypedValue, CompleteValue, WellFormed, Plain, Typed, Complete, WellFormedField, PlainField,
      EncArray, DefaultData;
    var f := t[i];
    FieldOf(t, m, i);
    assert CompleteSlot(t, m, i) by { CompleteAt(t, m, i); }
    var x := SlotOf(t, m, i);
    var present := true;
    match f.htype {
      case Required =>
      case Optional =>
        if f.Implicit() {
          var isDefault := CheckDefaultData(f, x.v);
          present := !isDefault;
        } else {
          present := x.has;
        }
      case Repeated =>
        forall k | 0 <= k < |x.items| ensures CompleteValue(f, x.items[k]) {
          assert x.items[k] == ItemsOf(x)[k];
        }
        ok := EncodeArray(stream, f, x.items);
        return;
      case Oneof => present := x.which == f.tag;
    }
    if present {
      ok := EncodePresent(stream, f, x.v);
    } else {
      DidNothing(stream.Now());
      ok := true;
    }
  }

  /** pb_encode: on a sizing stream this is pb_get_encoded_size. */
  method PbEncode(stream: OStream, t: seq<Field>, m: seq<Slot>) returns (ok: bool)
    requires stream.Now().Valid() && WellFormed(t) && Plain(t) && Typed(t, m, Loose) && Complete(t, m)
    modifies stream, stream.Memory()
    ensures stream.Now().Valid() && stream.buf == old(stream.buf)
    ensures Did(old(stream.Now()), stream.Now(), ok, EncMessage(t, m))
    decreases t, 2, 0
  {
    hide Did, WellFormed, Plain, Typed, Complete, EncField, EncFrom, Joined;
    ghost var v, done := stream.Now(), Some([]);
    DidNothing(v);
    JoinedWithNothing(EncMessage(t, m));
    assert NonZeroTags(t) by { TableTags(t); }
    var iter := new FieldIterator(t, 0);
    if TagAt(t, 0) == 0 {
      FieldsFrom(t, m, 0);
      return true;
    }
    while true
      invariant iter.Canonical() && iter.start == t && t != []
      invariant stream.Now().Valid() && stream.buf == old(stream.buf)
      invariant Did(v, stream.Now(), true, done)
      invariant EncMessage(t, m) == Joined(done, EncFrom(t, m, iter.pos))
      decreases |t| - iter.pos
    {
      ghost var i := iter.pos;
      ghost var v1, e, rest := stream.Now(), EncField(t, m, i), EncFrom(t, m, i + 1);
      FieldsFrom(t, m, i);
      JoinedTwice(done, e, rest);
      ok := EncodeBasicField(stream, t, m, iter.pos);
      DidThen(v, v1, stream.Now(), done, ok, e);
      if !ok {
        DidNot(v, stream.Now(), Joined(done, e), rest);
        return;
      }
      done := Joined(done, e);
      var more := iter.Next();
      if !more { break; }
    }
    FieldsFrom(t, m, |t|);
    JoinedWithNothing(done);
    return true;
  }

  lemma FieldsFrom(t: seq<Field>, m: seq<Slot>, i: nat)
    requires i <= |t|
    ensures EncFrom(t, m, i) == if i == |t| then Some([]) else Joined(EncField(t, m, i), EncFrom(t, m, i + 1))
  {
    hide EncField;
  }

  // ------------------------------------------------------------------ entry points

  /** pb_get_encoded_size. */
  method PbGetEncodedSize(t: seq<Field>, m: seq<Slot>) returns (ok: bool, size: nat)
    requires WellFormed(t) && Plain(t) && Typed(t, m, Loose) && Complete(t, m)
    ensures var e := EncMessage(t, m); ok == e.Some? && (ok ==> size == |e.value|)
  {
    hide WellFormed, Plain, Typed, Complete, EncMessage;
    var stream := new OStream.Sizing();
    ghost var v := stream.Now();
    ok := PbEncode(stream, t, m);
    size := stream.bytesWritten;
    Measured(v, stream.Now(), ok, EncMessage(t, m));
  }

  /** pb_encode into a fresh memory stream (pb_ostream_from_buffer): succeeds exactly if the size that
      pb_get_encoded_size reports fits, writes exactly that many bytes, and leaves the rest alone. */
  method EncodeToBuffer(buffer: array<byte>, t: seq<Field>, m: seq<Slot>) returns (ok: bool, size: nat)
    requires WellFormed(t) && Plain(t) && Typed(t, m, Loose) && Complete(t, m)
    modifies buffer
    ensures var e := EncMessage(t, m);
      ok == (e.Some? && |e.value| <= buffer.Length)
      && (ok ==> size == |e.value| && buffer[..] == e.value + old(buffer[..])[size..])
  {
    hide WellFormed, Plain, Typed, Complete, EncMessage;
    var stream := new OStream.FromBuffer(buffer);
    ok := PbEncode(stream, t, m);
    size := stream.bytesWritten;
  }

  /** pb_encode_nullterminated. */
  method PbEncodeNullterminated(stream: OStream, t: seq<Field>, m: seq<Slot>) returns (ok: bool)
    requires stream.Now().Valid() && WellFormed(t) && Plain(t) && Typed(t, m, Loose) && Complete(t, m)
    modifies stream, stream.Memory()
    ensures stream.Now().Valid() && stream.buf == old(stream.buf)
    ensures Did(old(stream.Now()), stream.Now(), ok, Joined(EncMessage(t, m), Some([0])))
  {
    hide WellFormed, Plain, Typed, Complete, EncMessage, Did;
    ghost var v, e := stream.Now(), EncMessage(t, m);
    ok := PbEncode(stream, t, m);
    if !ok {
      DidNot(v, stream.Now(), e, Some([0]));
      return;
    }
    ghost var v1 := stream.Now();
    ok := stream.Write([0]);
    DidThen(v, v1, stream.Now(), e, ok, Some([0]));
  }

  /** A struct with its counts in bounds is in particular one the encoder can read. */
  lemma {:induction false} BoundedIsTyped(t: seq<Field>, m: seq<Slot>)
    requires WellFormed(t) && Typed(t, m)
    ensures Typed(t, m, Loose)
    decreases t
  {
    forall i | 0 <= i < |t| ensures TypedSlot(t, i, m[i], Loose) {
      assert WellFormedField(t[i]) && TypedSlot(t, i, m[i]);
      if t[i].htype.Oneof? {
        if m[i].Union? && Selects(t, i, m[i].which) {
          var j := Find(t, m[i].which).value;
          assert WellFormedField(t[j]);
          BoundedValueIsTyped(t[j], m[i].v);
        }
      } else if t[i].htype.Repeated? {
        forall k | 0 <= k < |m[i].items| ensures TypedValue(t[i], m[i].items[k], Loose) {
          BoundedValueIsTyped(t[i], m[i].items[k]);
        }
      } else {
        BoundedValueIsTyped(t[i], m[i].v);
      }
    }
  }

  lemma {:induction false} BoundedValueIsTyped(f: Field, v: Value)
    requires WellFormedField(f) && TypedValue(f, v)
    ensures TypedValue(f, v, Loose)
    decreases f
  {
    if !f.ltype.LSubmessage? {
    } else {
      BoundedIsTyped(f.ptr.fields, v.slots);
    }
  }
}
