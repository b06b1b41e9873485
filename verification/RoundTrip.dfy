/** Decoding what was encoded: which messages come back, and that all others do not. */
module RoundTrip {
  import opened Wire
  import opened Descriptor
  import opened DecodeSpec
  import opened EncodeSpec
  import opened Defaults
  import opened Safety
  import opened Merge

  // ------------------------------------------------------------------ the same message

  /** Two structs carry the same message: same has_ flags, counts and selected union members, same
      contents where there are any.  Strings are compared as C strings. */
  predicate Equiv(t: seq<Field>, x: seq<Slot>, y: seq<Slot>)
    decreases t, 1
  {
    |x| == |t| == |y| && forall i :: 0 <= i < |t| ==> EquivSlot(t, i, x[i], y[i])
  }

  predicate EquivSlot(t: seq<Field>, i: nat, x: Slot, y: Slot)
    requires i < |t|
    decreases t, 0
  {
    var f := t[i];
    match f.htype
    case Required => EquivValue(f, ValueOf(x), ValueOf(y))
    case Optional =>
      if f.Implicit() then EquivValue(f, ValueOf(x), ValueOf(y))
      else x.Opt? && y.Opt? && x.has == y.has && (x.has ==> EquivValue(f, x.v, y.v))
    case Repeated =>
      var p, q := ItemsOf(x), ItemsOf(y);
      |p| == |q| && forall k :: 0 <= k < |p| ==> EquivValue(f, p[k], q[k])
    case Oneof =>
      SharesUnion(t, i) ||
      (x.Union? && y.Union? && x.which == y.which
       && (Selects(t, i, x.which) ==> EquivValue(t[Find(t, x.which).value], x.v, y.v)))
  }

  predicate EquivValue(f: Field, v: Value, w: Value)
    decreases f
  {
    match f.ltype
    case LSubmessage => f.ptr.Table? ==> Equiv(f.ptr.fields, SlotsOf(v), SlotsOf(w))
    case LString => CStr(BytesOf(v)) == CStr(BytesOf(w))
    case _ => v == w
  }

  // ------------------------------------------------------------------ which messages arrive

  /** Every string that is sent has a terminator within its buffer, every field that is left out because
      it looks like its proto3 default is read back as such, and every union selects a member of its own
      or nothing. */
  predicate Arrives(t: seq<Field>, b: seq<Slot>)
    decreases t, 1
  {
    forall i :: 0 <= i < |t| ==> ArrivesSlot(t, b, i)
  }

  predicate ArrivesSlot(t: seq<Field>, b: seq<Slot>, i: nat)
    requires i < |t|
    decreases t, 0
  {
    var f, y := t[i], At(b, i);
    match f.htype
    case Required => ArrivesValue(f, ValueOf(y))
    case Optional =>
      if Sent(t, b, i) then ArrivesValue(f, ValueOf(y))
      else f.Implicit() ==> StartsAsZero(f)
    case Repeated => forall k :: 0 <= k < |ItemsOf(y)| ==> ArrivesValue(f, ItemsOf(y)[k])
    case Oneof =>
      SharesUnion(t, i) ||
      (y.Union? && (y.which == 0 || (Selects(t, i, y.which) && ArrivesValue(t[Find(t, y.which).value], y.v))))
  }

  predicate ArrivesValue(f: Field, v: Value)
    decreases f
  {
    match f.ltype
    case LSubmessage => f.ptr.Table? ==> Arrives(f.ptr.fields, SlotsOf(v))
    case LString => |CStr(BytesOf(v))| < f.dataSize
    case _ => true
  }

  // ------------------------------------------------------------------ proto3 defaults

  lemma {:induction false} CStrTwice(s: bytes)
    ensures CStr(CStr(s)) == CStr(s)
  {
    if s == [] || s[0] == 0 {
    } else {
      CStrTwice(s[1..]);
      assert CStr(s)[1..] == CStr(s[1..]);
    }
  }

  /** Next to a value that looks like the default, being equivalent is looking like the default too. */
  lemma {:induction false} DefaultEquiv(f: Field, u: Value, v: Value)
    requires WellFormedField(f) && PlainField(f) && TypedValue(f, u) && TypedValue(f, v) && DefaultData(f, v)
    ensures EquivValue(f, u, v) <==> DefaultData(f, u)
    decreases f
  {
    hide CStr, WellFormed, Plain, Typed, Equiv, AllDefault;
    if !f.ltype.LSubmessage? {
    } else {
      DefaultMessageEquiv(f.ptr.fields, u.slots, v.slots);
    }
  }

  lemma {:induction false} DefaultMessageEquiv(t: seq<Field>, u: seq<Slot>, v: seq<Slot>)
    requires WellFormed(t) && Plain(t) && Typed(t, u) && Typed(t, v) && AllDefault(t, v)
    ensures Equiv(t, u, v) <==> AllDefault(t, u)
    decreases t, 1
  {
    hide DefaultSlot, EquivSlot, WellFormed, Plain, TypedSlot, Leader;
    forall i | 0 <= i < |t|
      ensures EquivSlot(t, Leader(t, i), u[Leader(t, i)], v[Leader(t, i)]) <==> DefaultSlot(t, u, i)
      ensures DefaultSlot(t, u, i) ==> EquivSlot(t, i, u[i], v[i])
    {
      DefaultSlotEquiv(t, u, v, i);
    }
  }

  lemma {:induction false} DefaultSlotEquiv(t: seq<Field>, u: seq<Slot>, v: seq<Slot>, i: nat)
    requires WellFormed(t) && Plain(t) && Typed(t, u) && Typed(t, v) && i < |t| && DefaultSlot(t, v, i)
    ensures var k := Leader(t, i); EquivSlot(t, k, u[k], v[k]) <==> DefaultSlot(t, u, i)
    ensures DefaultSlot(t, u, i) ==> EquivSlot(t, i, u[i], v[i])
    decreases t, 0
  {
    hide WellFormed, Plain, Typed, EquivValue, DefaultData, TypedValue, WellFormedField, PlainField, Selects;
    var f, k := t[i], Leader(t, i);
    FieldFacts(t, i);
    TypedAt(t, u, k);
    TypedAt(t, v, k);
    LeaderStarts(t, i);
    if f.htype.Oneof? {
      ZeroSelectsNothing(t, k);
    } else if f.Implicit() {
      DefaultEquiv(f, u[i].v, v[i].v);
    }
  }

  // ------------------------------------------------------------------ what a receiver makes of it

  lemma {:induction false} ValueArrives(f: Field, v: Value)
    requires WellFormedField(f) && PlainField(f) && TypedValue(f, v) && CompleteValue(f, v)
    ensures var r := MergeValue(f, InitialValue(f), v);
      r.Some? && EquivValue(f, r.value, v) <==> ArrivesValue(f, v)
    decreases f, 0
  {
    hide CStr, WellFormed, Plain, Typed, Equiv, Arrives, MergeMessage, Complete, InitialMessage;
    match f.ltype {
      case LSubmessage => MessageArrives(f.ptr.fields, v.slots);
      case LString => CStrTwice(v.s);
      case _ =>
    }
  }

  lemma {:induction false} ItemsArrive(f: Field, items: seq<Value>)
    requires WellFormedField(f) && PlainField(f)
    requires forall k :: 0 <= k < |items| ==> TypedValue(f, items[k]) && CompleteValue(f, items[k])
    ensures var r := ReceivedItems(f, items);
      (r.Some? && forall k :: 0 <= k < |items| ==> EquivValue(f, r.value[k], items[k]))
      <==> forall k :: 0 <= k < |items| ==> ArrivesValue(f, items[k])
    decreases f, 1, |items|
  {
    hide WellFormedField, PlainField, TypedValue, CompleteValue, EquivValue, ArrivesValue, MergeValue, InitialValue;
    if items == [] {
    } else {
      var rest := items[1..];
      ValueArrives(f, items[0]);
      ItemsArrive(f, rest);
      var r, r' := ReceivedItems(f, items), ReceivedItems(f, rest);
      if forall k :: 0 <= k < |items| ==> ArrivesValue(f, items[k]) {
        assert forall k :: 0 <= k < |rest| ==> rest[k] == items[k + 1];
      }
      if r.Some? && forall k :: 0 <= k < |items| ==> EquivValue(f, r.value[k], items[k]) {
        forall k | 0 <= k < |rest| ensures EquivValue(f, r'.value[k], rest[k]) {
          assert EquivValue(f, r.value[k + 1], items[k + 1]);
        }
        assert EquivValue(f, r.value[0], items[0]);
        forall k | 0 <= k < |items| ensures ArrivesValue(f, items[k]) {
          if k > 0 { assert ArrivesValue(f, rest[k - 1]); }
        }
      }
    }
  }

  lemma {:induction false} SlotArrives(t: seq<Field>, b: seq<Slot>, i: nat)
    requires WellFormed(t) && Plain(t) && Typed(t, b) && Complete(t, b) && i < |t|
    ensures var r := MergeSlot(t, InitialMessage(t), b, i);
      r.Some? && EquivSlot(t, i, r.value, b[i]) <==> ArrivesSlot(t, b, i)
    decreases t, 1
  {
    hide WellFormed, Plain, Typed, Complete, TypedValue, WellFormedField, PlainField, EquivValue, ArrivesValue,
      MergeValue, DefaultData, StartsAsZero, InitialValue, CompleteValue, ReceivedItems, Leader;
    var f, a := t[i], InitialMessage(t);
    FieldFacts(t, i);
    TypedAt(t, b, i);
    assert CompleteSlot(t, b, i) by { CompleteAt(t, b, i); }
    assert a[i] == InitialSlot(t, i);
    assert !f.htype.Oneof? ==> Leader(t, i) == i by { LeaderOutside(t, i); }
    match f.htype {
      case Required => ValueArrives(f, b[i].v);
      case Optional =>
        if Sent(t, b, i) {
          ValueArrives(f, b[i].v);
        } else if f.Implicit() {
          InitialValueTyped(f);
          DefaultEquiv(f, InitialValue(f), b[i].v);
          StartsAsZeroExactly(f);
        }
      case Repeated => ArrayArrives(t, b, i);
      case Oneof => if !SharesUnion(t, i) { UnionArrives(t, b, i); }
    }
  }

  lemma {:induction false} ArrayArrives(t: seq<Field>, b: seq<Slot>, i: nat)
    requires WellFormed(t) && Plain(t) && Typed(t, b) && Complete(t, b) && i < |t| && t[i].htype.Repeated?
    ensures var r := MergeSlot(t, InitialMessage(t), b, i);
      r.Some? && EquivSlot(t, i, r.value, b[i]) <==> ArrivesSlot(t, b, i)
    decreases t, 0
  {
    hide WellFormed, Plain, Typed, Complete, TypedValue, WellFormedField, PlainField, EquivValue, ArrivesValue,
      MergeValue, InitialValue, CompleteValue, ReceivedItems;
    FieldFacts(t, i);
    TypedAt(t, b, i);
    var f, items := t[i], b[i].items;
    assert CompleteSlot(t, b, i) by { CompleteAt(t, b, i); }
    assert InitialMessage(t)[i] == Arr([]);
    LeaderOutside(t, i);
    assert SlotOf(t, b, i) == b[i];
    forall k | 0 <= k < |items| ensures CompleteValue(f, items[k]) {
      assert items[k] == ItemsOf(SlotOf(t, b, i))[k];
    }
    ItemsArrive(f, items);
    var r := ReceivedItems(f, items);
    if r.Some? { assert [] + r.value == r.value; }
  }

  lemma {:induction false} UnionArrives(t: seq<Field>, b: seq<Slot>, i: nat)
    requires WellFormed(t) && Plain(t) && Typed(t, b) && Complete(t, b) && i < |t|
    requires t[i].htype.Oneof? && !SharesUnion(t, i)
    ensures var r := MergeSlot(t, InitialMessage(t), b, i);
      r.Some? && EquivSlot(t, i, r.value, b[i]) <==> ArrivesSlot(t, b, i)
    decreases t, 0
  {
    hide WellFormed, Plain, Typed, Complete, TypedValue, WellFormedField, PlainField, EquivValue, ArrivesValue,
      MergeValue, InitialValue, CompleteValue, Leader, Find;
    assert InitialMessage(t)[i] == InitialSlot(t, i);
    TypedAt(t, b, i);
    ZeroSelectsNothing(t, i);
    var which := b[i].which;
    if Selects(t, i, which) {
      var j := Find(t, which).value;
      FieldFacts(t, j);
      assert CompleteSlot(t, b, j) by { CompleteAt(t, b, j); }
      ValueArrives(t[j], b[i].v);
    }
  }

  lemma {:induction false} MessageArrives(t: seq<Field>, b: seq<Slot>)
    requires WellFormed(t) && Plain(t) && Typed(t, b) && Complete(t, b)
    ensures var r := MergeMessage(t, InitialMessage(t), b);
      r.Some? && Equiv(t, r.value, b) <==> Arrives(t, b)
    decreases t, 2
  {
    hide WellFormed, Plain, TypedSlot, Complete, MergeSlot, EquivSlot, ArrivesSlot, InitialMessage;
    var a := InitialMessage(t);
    forall i | 0 <= i < |t|
      ensures var r := MergeSlot(t, a, b, i);
        r.Some? && EquivSlot(t, i, r.value, b[i]) <==> ArrivesSlot(t, b, i)
    {
      SlotArrives(t, b, i);
    }
    var r := MergeMessage(t, a, b);
    if r.Some? {
      assert forall i :: 0 <= i < |t| ==> (EquivSlot(t, i, r.value[i], b[i]) <==> ArrivesSlot(t, b, i));
    } else {
      assert !Merges(t, a, b);
      var i :| 0 <= i < |t| && MergeSlot(t, a, b, i).None?;
      assert !ArrivesSlot(t, b, i);
    }
  }

  // ------------------------------------------------------------------ main results

  /** The round trip, exactly: an encoded message decodes to an equivalent one if and only if it satisfies
      `Arrives`, and decoding leaves nothing unread. */
  lemma RoundTripExact(t: seq<Field>, b: seq<Slot>, e: bytes)
    requires WellFormed(t) && Plain(t) && Typed(t, b) && Complete(t, b)
    requires EncMessage(t, b) == Some(e) && |e| < 0x1_0000_0000
    ensures Decode(t, e).Ok? && Equiv(t, Decode(t, e).value, b) <==> Arrives(t, b)
    ensures Decode(t, e).Ok? ==> Decode(t, e).rest == []
  {
    hide WellFormed, Plain, Typed, Complete, MergeMessage, Equiv, Arrives, EncMessage, DecodeNoInit;
    InitialTyped(t);
    MessageBack(t, InitialMessage(t), b, e);
    MessageArrives(t, b);
  }

  /** The loop over an encoded message, whatever came before and follows it: `st` is the state between two
      messages. */
  lemma LoopOverMessage(t: seq<Field>, a: seq<Slot>, b: seq<Slot>, st: State, e: bytes, s: bytes) returns (fin: State)
    requires WellFormed(t) && Plain(t) && Typed(t, a) && Typed(t, b) && Complete(t, b)
    requires EncMessage(t, b) == Some(e) && |e| < 0x1_0000_0000 && st.m == a
    requires FixedDone(t, st) && (st.fixed.Some? ==> st.fixed.value < |t| && NonemptyFixed(t, st.fixed.value))
    ensures if Merges(t, a, b) && Ready(t, st, 0)
      then Loop(t, st, e + s) == Loop(t, fin, s) && MergeMessage(t, a, b) == Some(fin.m)
        && FixedDone(t, fin) && RequiredDone(t, fin.seen) && fin.fixed == LastFixed(t, 0, st.fixed)
      else Loop(t, st, e + s).Fail?
  {
    hide WellFormed, Plain, Typed, Complete, MergeSlot, EncFrom, Merges, Loop, SlotProgress, FixedDone;
    SameLength(t, a);
    ProgressStart(t, a, b);
    assert Progress(t, a, b, st, 0);
    fin := FromBack(t, a, b, st, 0, e, s);
    if Merges(t, a, b) && Ready(t, st, 0) { ProgressEnd(t, a, b, fin); }
  }

  /** pb_encode_nullterminated and pb_decode_nullterminated: the zero byte ends the message, and what
      comes after it is left in the stream. */
  lemma NullTerminatedRoundTrip(t: seq<Field>, b: seq<Slot>, e: bytes, s: bytes)
    requires WellFormed(t) && Plain(t) && Typed(t, b) && Complete(t, b)
    requires EncMessage(t, b) == Some(e) && |e| < 0x1_0000_0000
    ensures Decode(t, e + [0] + s) == Got(MergeMessage(t, InitialMessage(t), b), s)
    ensures Decode(t, e + [0] + s).Ok? && Equiv(t, Decode(t, e + [0] + s).value, b) <==> Arrives(t, b)
  {
    hide WellFormed, Plain, Typed, Complete, MergeMessage, Equiv, Arrives, EncMessage, Step, InitialMessage, Merges,
      FixedDone, RequiredDone;
    var a := InitialMessage(t);
    InitialTyped(t);
    MessageArrives(t, b);
    assert e + [0] + s == e + ([0] + s);
    ReadyFirst(t, Start(a));
    var fin := LoopOverMessage(t, a, b, Start(a), e, [0] + s);
    assert ([0] + s)[1..] == s;
  }

  /** pb_encode_delimited and pb_decode_delimited: messages can follow one another on a stream. */
  lemma DelimitedRoundTrip(t: seq<Field>, b: seq<Slot>, e: bytes, s: bytes)
    requires WellFormed(t) && Plain(t) && Typed(t, b) && Complete(t, b)
    requires EncMessage(t, b) == Some(e) && |e| < 0x1_0000_0000
    ensures var r := DecodeDelimited(t, EncString(e) + s);
      (r.Ok? && Equiv(t, r.value, b) <==> Arrives(t, b)) && (r.Ok? ==> r.rest == s)
  {
    hide WellFormed, Plain, Typed, Complete, Equiv, Arrives, EncMessage, Decode, DecVarint32, EncString;
    BytesBack(e, s);
    RoundTripExact(t, b, e);
  }

  /** Exactly one top-level field is a fixed-count array with elements. */
  predicate OneFixedField(t: seq<Field>) {
    exists i :: 0 <= i < |t| && NonemptyFixed(t, i) && forall k :: 0 <= k < |t| && NonemptyFixed(t, k) ==> k == i
  }

  /** After a whole message another one may begin, unless the only fixed-count field would be taken for
      its own continuation. */
  lemma ReadyAgain(t: seq<Field>, st: State)
    requires st.fixed == LastFixed(t, 0, None)
    ensures Ready(t, st, 0) <==> !OneFixedField(t)
  {
    var first, last := FirstFixed(t, 0), LastFixed(t, 0, None);
    if OneFixedField(t) {
      var i: nat :| i < |t| && NonemptyFixed(t, i) && forall k :: 0 <= k < |t| && NonemptyFixed(t, k) ==> k == i;
      assert first == Some(i) && last == Some(i);
    }
  }

  /** Two encoded messages one after the other decode to the merge of the second into the first, unless
      the table has exactly one fixed-count field with elements: then the concatenation is rejected,
      because the decoder takes the second array for more elements of the first. */
  lemma ConcatenatedMessages(t: seq<Field>, b: seq<Slot>, c: seq<Slot>, e: bytes, d: bytes)
    requires WellFormed(t) && Plain(t) && Typed(t, b) && Complete(t, b) && Typed(t, c) && Complete(t, c)
    requires EncMessage(t, b) == Some(e) && |e| < 0x1_0000_0000
    requires EncMessage(t, c) == Some(d) && |d| < 0x1_0000_0000
    ensures var first := MergeMessage(t, InitialMessage(t), b);
      Decode(t, e + d) ==
      if first.Some? && !OneFixedField(t) then Got(MergeMessage(t, first.value, c), []) else Fail
  {
    hide WellFormed, Plain, Typed, Complete, MergeSlot, EncMessage, InitialMessage, Step, Merges, Loop, Ready,
      FixedDone, RequiredDone, OneFixedField;
    var a := InitialMessage(t);
    InitialTyped(t);
    MessageBack(t, a, b, e);
    ReadyFirst(t, Start(a));
    var mid := LoopOverMessage(t, a, b, Start(a), e, d);
    if Merges(t, a, b) {
      NoInitTyped(t, a, e);
      ReadyAgain(t, mid);
      var fin := LoopOverMessage(t, mid.m, c, mid, d, []);
      assert d + [] == d;
      assert Loop(t, fin, []) == Ok(fin, []) by { LoopEmpty(t, fin); }
    }
  }

  lemma ReadyFirst(t: seq<Field>, st: State)
    requires st.fixed.None?
    ensures Ready(t, st, 0) && FixedDone(t, st)
  {
  }
}
