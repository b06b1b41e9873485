/** Which messages pb_encode can encode, given room. */
module Encodability {
  import opened Wire
  import opened Descriptor
  import opened EncodeSpec

  /** Every integer that is sent has a legal width, every byte array that is sent fits its buffer, and every
      count is within its array, in submessages that are sent too. */
  predicate Encodable(t: seq<Field>, m: seq<Slot>)
    decreases t, 1
  {
    forall i :: 0 <= i < |t| ==> EncodableSlot(t, m, i)
  }

  predicate EncodableSlot(t: seq<Field>, m: seq<Slot>, i: nat)
    requires i < |t|
    decreases t, 0
  {
    var f, x := t[i], SlotOf(t, m, i);
    if f.htype.Repeated? then
      |ItemsOf(x)| <= f.arraySize && forall k :: 0 <= k < |ItemsOf(x)| ==> EncodableValue(f, ItemsOf(x)[k])
    else Sent(t, m, i) ==> EncodableValue(f, ValueOf(x))
  }

  predicate EncodableValue(f: Field, v: Value)
    decreases f
  {
    match f.ltype
    case LVarint => LegalSize(f.dataSize)
    case LUVarint => LegalSize(f.dataSize)
    case LSVarint => LegalSize(f.dataSize)
    case LBytes => |BytesOf(v)| + 1 <= f.dataSize
    case LSubmessage => f.ptr.Table? && Encodable(f.ptr.fields, SlotsOf(v))
    case _ => true
  }

  lemma {:induction false} ValueEncodes(f: Field, v: Value)
    requires WellFormedField(f) && PlainField(f) && TypedValue(f, v, Loose)
    ensures EncValue(f, v).Some? <==> EncodableValue(f, v)
    decreases f, 0
  {
    hide WellFormed, Plain, Typed, Encodable, EncMessage, EncVarint, LittleEndian, EncString, CStr;
    if !f.ltype.LSubmessage? {
    } else {
      EncodesExactly(f.ptr.fields, v.slots);
    }
  }

  lemma {:induction false} PackedEncodes(f: Field, items: seq<Value>)
    requires WellFormedField(f) && PlainField(f) && f.ltype.Packable() && AllTyped(f, items)
    ensures EncPacked(f, items).Some? <==> forall k :: 0 <= k < |items| ==> EncodableValue(f, items[k])
    decreases f, 1, |items|
  {
    hide WellFormedField, PlainField, TypedValue, EncodableValue, EncScalar;
    if items == [] {
    } else {
      ValueEncodes(f, items[0]);
      PackedEncodes(f, items[1..]);
      assert forall k :: 0 <= k < |items| - 1 ==> items[1..][k] == items[k + 1];
      assert forall k :: 0 < k < |items| ==> items[k] == items[1..][k - 1];
    }
  }

  lemma {:induction false} EachEncodes(f: Field, items: seq<Value>)
    requires WellFormedField(f) && PlainField(f) && AllTyped(f, items)
    ensures EncEach(f, items).Some? <==> forall k :: 0 <= k < |items| ==> EncodableValue(f, items[k])
    decreases f, 1, |items|
  {
    hide WellFormedField, TypedValue, EncodableValue, EncValue;
    if items == [] {
    } else {
      ValueEncodes(f, items[0]);
      EachEncodes(f, items[1..]);
      assert forall k :: 0 <= k < |items| - 1 ==> items[1..][k] == items[k + 1];
      assert forall k :: 0 < k < |items| ==> items[k] == items[1..][k - 1];
    }
  }

  lemma {:induction false} FieldEncodes(t: seq<Field>, m: seq<Slot>, i: nat)
    requires WellFormed(t) && Plain(t) && Typed(t, m, Loose) && i < |t|
    ensures EncField(t, m, i).Some? <==> EncodableSlot(t, m, i)
    decreases t, 0
  {
    hide WellFormed, Plain, Typed, WellFormedField, PlainField, TypedValue, EncodableValue, EncValue, EncPacked,
      EncEach, Sent;
    var f := t[i];
    FieldOf(t, m, i);
    var x := SlotOf(t, m, i);
    if f.htype.Repeated? {
      if f.ltype.Packable() { PackedEncodes(f, x.items); } else { EachEncodes(f, x.items); }
    } else if Sent(t, m, i) {
      if f.htype.Oneof? { SentTag(t, m, i); }
      ValueEncodes(f, x.v);
    }
  }

  lemma SentTag(t: seq<Field>, m: seq<Slot>, i: nat)
    requires i < |t| && t[i].htype.Oneof? && Sent(t, m, i)
    ensures SlotOf(t, m, i).Union? && SlotOf(t, m, i).which == t[i].tag
  {
  }

  lemma {:induction false} FromEncodes(t: seq<Field>, m: seq<Slot>, i: nat)
    requires WellFormed(t) && Plain(t) && Typed(t, m, Loose) && i <= |t|
    ensures EncFrom(t, m, i).Some? <==> forall k :: i <= k < |t| ==> EncodableSlot(t, m, k)
    decreases t, 1, |t| - i
  {
    hide WellFormed, Plain, Typed, EncField, EncodableSlot;
    if i == |t| {
    } else {
      FieldEncodes(t, m, i);
      FromEncodes(t, m, i + 1);
    }
  }

  /** pb_encode has an encoding for exactly the encodable messages. */
  lemma {:induction false} EncodesExactly(t: seq<Field>, m: seq<Slot>)
    requires WellFormed(t) && Plain(t) && Typed(t, m, Loose)
    ensures EncMessage(t, m).Some? <==> Encodable(t, m)
    decreases t, 2
  {
    hide WellFormed, Plain, Typed, EncFrom;
    FromEncodes(t, m, 0);
    assert EncMessage(t, m) == EncFrom(t, m, 0);
    if Encodable(t, m) {
      assert forall k :: 0 <= k < |t| ==> EncodableSlot(t, m, k);
    }
    if EncMessage(t, m).Some? {
      assert forall k :: 0 <= k < |t| ==> EncodableSlot(t, m, k);
      assert Encodable(t, m);
    }
  }
}
