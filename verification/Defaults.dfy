/** Default values: which data the encoder leaves out, and what a field starts from. */
module Defaults {
  import opened Wire
  import opened Descriptor
  import opened EncodeSpec

  // ------------------------------------------------------------------ single values

  /** False, zero, or no contents; a C string has none if it starts with its terminator. */
  predicate Zero(l: LType, v: Value) {
    v == VBool(false) || v == VInt(0) || v == VBytes([]) || (l.LString? && v.VBytes? && v.s != [] && v.s[0] == 0)
  }

  /** The data that counts as a proto3 default is exactly the zero data; a fixed-length byte array always has
      its contents, unless its length is zero. */
  lemma DefaultIsZero(f: Field, v: Value, bound: Bound := Counted)
    requires TypedValue(f, v, bound) && !f.ltype.LSubmessage? && !f.ltype.LExtension?
    ensures DefaultData(f, v) <==> Zero(f.ltype, v)
  {
  }

  /** Does the data of a field start as its proto3 default?  Said of the table alone: no preset, or a zero
      one, in a submessage for every field. */
  predicate StartsAsZero(f: Field)
    decreases f, 0
  {
    match f.ltype
    case LSubmessage => f.ptr.Table? ==> AllStartAsZero(f.ptr.fields)
    case LFixedBytes => f.dataSize == 0
    case _ => f.ptr.Preset? ==> Zero(f.ltype, f.ptr.v)
  }

  predicate AllStartAsZero(t: seq<Field>)
    decreases t, 1
  {
    forall i :: 0 <= i < |t| ==> FieldStartsAsZero(t, i)
  }

  predicate FieldStartsAsZero(t: seq<Field>, i: nat)
    requires i < |t|
    decreases t, 0
  {
    !t[i].htype.Required? && !t[i].FixedCount() && (t[i].Implicit() ==> StartsAsZero(t[i]))
  }

  lemma {:induction false} StartsAsZeroExactly(f: Field)
    requires WellFormedField(f) && PlainField(f)
    ensures DefaultData(f, InitialValue(f)) <==> StartsAsZero(f)
    decreases f, 0
  {
    hide WellFormed, Plain, AllDefault, AllStartAsZero, InitialMessage;
    if !f.ltype.LSubmessage? {
      InitialValueTyped(f);
      DefaultIsZero(f, InitialValue(f));
    } else {
      AllStartAsZeroExactly(f.ptr.fields);
    }
  }

  lemma {:induction false} AllStartAsZeroExactly(t: seq<Field>)
    requires WellFormed(t) && Plain(t)
    ensures AllDefault(t, InitialMessage(t)) <==> AllStartAsZero(t)
    decreases t, 1
  {
    hide WellFormed, Plain, DefaultData, InitialValue, StartsAsZero, Leader;
    var m := InitialMessage(t);
    forall i | 0 <= i < |t| ensures DefaultSlot(t, m, i) <==> FieldStartsAsZero(t, i) {
      FieldFacts(t, i);
      LeaderStarts(t, i);
      var k := Leader(t, i);
      assert !t[i].htype.Oneof? ==> k == i by { LeaderOutside(t, i); }
      assert m[k] == InitialSlot(t, k);
      if t[i].Implicit() { StartsAsZeroExactly(t[i]); }
    }
  }

  /** A field without a preset starts as its proto3 default, except a fixed-length byte array. */
  lemma NoPresetStartsAsZero(f: Field)
    requires WellFormedField(f) && PlainField(f) && f.ptr.Null? && !(f.ltype.LFixedBytes? && f.dataSize > 0)
    ensures DefaultData(f, InitialValue(f))
  {
    hide WellFormed, Plain;
    StartsAsZeroExactly(f);
  }

  /** What is initialised without a preset is all zero bits: this is its literal value. */
  lemma ZeroContents(f: Field)
    requires f.ptr.Null? && !f.ltype.LSubmessage? && !f.ltype.LExtension?
    ensures InitialValue(f) ==
      if f.ltype.LBool? then VBool(false)
      else if f.ltype.LFixedBytes? then VBytes(seq(f.dataSize, _ => 0))
      else if f.ltype.LBytes? || f.ltype.LString? then VBytes([])
      else VInt(0)
  {
    assert Zeros(f.dataSize) == seq(f.dataSize, _ => 0);
  }

  // ------------------------------------------------------------------ whole messages

  /** Unions hold a member of their own or nothing, and no fixed-count array has size zero. */
  predicate Regular(t: seq<Field>, m: seq<Slot>) {
    forall i :: 0 <= i < |t| ==>
      && (t[i].FixedCount() ==> t[i].arraySize > 0)
      && (t[i].htype.Oneof? && !SharesUnion(t, i) && At(m, i).Union? ==>
            At(m, i).which == 0 || Selects(t, i, At(m, i).which))
  }

  /** Nothing of entry `i` is sent. */
  predicate Silent(t: seq<Field>, m: seq<Slot>, i: nat)
    requires i < |t|
  {
    var f, x := t[i], SlotOf(t, m, i);
    match f.htype
    case Required => false
    case Optional => if f.Implicit() then DefaultData(f, ValueOf(x)) else x.Opt? && !x.has
    case Repeated => ItemsOf(x) == []
    case Oneof => x.Union? && x.which != f.tag
  }

  lemma PresentIsLong(f: Field, v: Value)
    requires !f.ltype.LExtension? && EncPresent(f, v).Some?
    ensures EncPresent(f, v).value != []
  {
    hide EncValue;
  }

  lemma FieldSilent(t: seq<Field>, m: seq<Slot>, i: nat)
    requires WellFormed(t) && Plain(t) && Typed(t, m, Loose) && i < |t|
    ensures EncField(t, m, i) == Some([]) <==> Silent(t, m, i)
  {
    hide WellFormed, Plain, Typed, EncPresent, EncPacked, EncVarint, EncString, DefaultData, Leader, TypedValue,
      EncEach;
    var f := t[i];
    FieldOf(t, m, i);
    var x := SlotOf(t, m, i);
    if f.htype.Repeated? {
      if x.items != [] && !f.ltype.Packable() { EachIsLong(f, x.items); }
    } else if EncPresent(f, ValueOf(x)).Some? {
      PresentIsLong(f, ValueOf(x));
    }
  }

  lemma EachIsLong(f: Field, items: seq<Value>)
    requires !f.ltype.LExtension? && items != []
    ensures EncEach(f, items) != Some([])
  {
    hide EncPresent;
    if EncPresent(f, items[0]).Some? { PresentIsLong(f, items[0]); }
  }

  lemma {:induction false} FromSilent(t: seq<Field>, m: seq<Slot>, i: nat)
    requires WellFormed(t) && Plain(t) && Typed(t, m, Loose) && i <= |t|
    ensures EncFrom(t, m, i) == Some([]) <==> forall k :: i <= k < |t| ==> Silent(t, m, k)
    decreases |t| - i
  {
    hide WellFormed, Plain, Typed, EncField, Silent;
    if i == |t| {
    } else {
      FieldSilent(t, m, i);
      FromSilent(t, m, i + 1);
      var e, rest := EncField(t, m, i), EncFrom(t, m, i + 1);
      if e.Some? && rest.Some? { assert |e.value + rest.value| == |e.value| + |rest.value|; }
    }
  }

  /** An entry is silent exactly if it counts as a proto3 default. */
  lemma SilentIsDefault(t: seq<Field>, m: seq<Slot>)
    requires WellFormed(t) && Plain(t) && Typed(t, m, Loose) && Complete(t, m) && Regular(t, m)
    ensures (forall i :: 0 <= i < |t| ==> Silent(t, m, i)) <==> AllDefault(t, m)
  {
    hide WellFormed, Plain, Typed, DefaultData, Complete, TypedValue, CompleteValue, Leader, Find;
    forall i | 0 <= i < |t|
      ensures DefaultSlot(t, m, i) ==> Silent(t, m, i)
      ensures !t[i].htype.Oneof? && Silent(t, m, i) ==> DefaultSlot(t, m, i)
    {
      FieldOf(t, m, i);
      assert CompleteSlot(t, m, i) by { CompleteAt(t, m, i); }
      assert t[i].FixedCount() ==> t[i].arraySize > 0;
      FieldFacts(t, i);
    }
    if forall i :: 0 <= i < |t| ==> Silent(t, m, i) {
      forall i | 0 <= i < |t| && t[i].htype.Oneof? ensures DefaultSlot(t, m, i) {
        FieldOf(t, m, i);
        LeaderStarts(t, i);
        var k := Leader(t, i);
        var which := At(m, k).which;
        assert Selects(t, k, which) ==> !Silent(t, m, Find(t, which).value);
      }
    }
  }

  /** A message counts as default exactly if nothing is written for it. */
  lemma DefaultWritesNothing(t: seq<Field>, m: seq<Slot>)
    requires WellFormed(t) && Plain(t) && Typed(t, m, Loose) && Complete(t, m) && Regular(t, m)
    ensures EncMessage(t, m) == Some([]) <==> AllDefault(t, m)
  {
    hide WellFormed, Plain, Typed, Complete, Regular, EncFrom, Silent, AllDefault;
    FromSilent(t, m, 0);
    SilentIsDefault(t, m);
  }

  /** A freshly initialised message is written as nothing exactly if no field is required and every field
      without has_ flag starts as zero. */
  lemma FreshWritesNothing(t: seq<Field>)
    requires WellFormed(t) && Plain(t) && forall i :: 0 <= i < |t| ==> !t[i].FixedCount()
    ensures EncMessage(t, InitialMessage(t)) == Some([]) <==> AllStartAsZero(t)
  {
    hide WellFormed, Plain, Typed, EncFrom, Silent, AllDefault, AllStartAsZero, InitialValue, DefaultData;
    var m := InitialMessage(t);
    InitialTyped(t, Loose);
    AllStartAsZeroExactly(t);
    FromSilent(t, m, 0);
    FreshSilent(t);
  }

  lemma FreshSilent(t: seq<Field>)
    requires WellFormed(t) && Plain(t) && forall i :: 0 <= i < |t| ==> !t[i].FixedCount()
    ensures var m := InitialMessage(t);
      (forall i :: 0 <= i < |t| ==> Silent(t, m, i)) <==> AllDefault(t, m)
  {
    hide WellFormed, Plain, InitialValue, DefaultData, Leader;
    var m := InitialMessage(t);
    forall i | 0 <= i < |t| ensures Silent(t, m, i) <==> DefaultSlot(t, m, i) {
      FieldFacts(t, i);
      LeaderStarts(t, i);
      assert !t[i].htype.Oneof? ==> Leader(t, i) == i by { LeaderOutside(t, i); }
      assert m[Leader(t, i)] == InitialSlot(t, Leader(t, i));
      assert WellFormedField(t[i]);
    }
  }
}
