/** Field descriptor tables (pb.h) and the message structs they describe.

    A struct is a sequence of slots, one for each table entry.  A union of oneof members lives in the
    slot of its first member; the slots of the others are `Shared`.  What the C code leaves
    indeterminate is not represented: the array elements past the count, the part of a
    fixed-count array that has never been written, and a union no member of which is selected. */
module Descriptor {
  import opened Wire

  /** The low four bits of `pb_type_t`. */
  datatype LType =
    | LBool | LVarint | LUVarint | LSVarint | LFixed32 | LFixed64
    | LBytes | LString | LSubmessage | LExtension | LFixedBytes
  {
    /** At most PB_LTYPE_LAST_PACKABLE. */
    predicate Packable() {
      LBool? || LVarint? || LUVarint? || LSVarint? || LFixed32? || LFixed64?
    }

    /** The wire type pb_encode_tag_for_field chooses; there is none for an extension. */
    function WireType(): (w: nat)
      ensures w < 8
    {
      match this
      case LFixed32 => 5
      case LFixed64 => 1
      case LBool => 0
      case LVarint => 0
      case LUVarint => 0
      case LSVarint => 0
      case _ => 2
    }
  }

  /** The packable types are those that are not length-delimited: booleans, integers and fixed-size
      numbers. */
  lemma PackableTypes(l: LType)
    ensures l.Packable() <==> l.WireType() != 2
    ensures l.Packable() <==> l in {LBool, LVarint, LUVarint, LSVarint, LFixed32, LFixed64}
  {
  }

  datatype HType = Required | Optional | Repeated | Oneof

  datatype AType = Static | Pointer | Callback

  /** The untyped `ptr` of a field: the table of a submessage, one of the program's tables by number (for
      a message type that contains itself through a heap pointer), a default value, or null. */
  datatype Ptr = Null | Table(fields: seq<Field>) | Named(index: nat) | Preset(v: Value)

  /** pb_field_t, with the three parts of its type byte separated. */
  datatype Field = Field(
    tag: nat, ltype: LType, htype: HType, atype: AType,
    dataOffset: nat, sizeOffset: int, dataSize: nat, arraySize: nat, ptr: Ptr)
  {
    /** A repeated field without a counter in the struct (PB_REPEATED_FIXED_COUNT). */
    predicate FixedCount() {
      htype.Repeated? && sizeOffset == 0
    }

    /** An optional field without a has_ flag (PB_SINGULAR_STATIC, proto3). */
    predicate Implicit() {
      htype.Optional? && sizeOffset == 0
    }
  }

  datatype Value =
    | VBool(b: bool)
    | VInt(n: int)
    | VBytes(s: bytes)
    | VMsg(slots: seq<Slot>)

  datatype Slot =
    | Single(v: Value)
    | Opt(has: bool, v: Value)
    | Arr(items: seq<Value>)
    | Union(which: nat, v: Value)
    | Shared

  const PB_SIZE_MAX := 255

  // ------------------------------------------------------------------ struct access

  /** Reading a struct that does not match its table is undefined in C; here it gives a placeholder. */
  function At(m: seq<Slot>, i: nat): Slot {
    if i < |m| then m[i] else Shared
  }

  function Put(m: seq<Slot>, i: nat, x: Slot): (r: seq<Slot>)
    ensures |r| == |m|
  {
    if i < |m| then m[i := x] else m
  }

  function ValueOf(x: Slot): Value {
    if x.Single? || x.Opt? || x.Union? then x.v else VBool(false)
  }

  function ItemsOf(x: Slot): seq<Value> {
    if x.Arr? then x.items else []
  }

  function SlotsOf(v: Value): seq<Slot> {
    if v.VMsg? then v.slots else []
  }

  // ------------------------------------------------------------------ tables

  /** Does entry `i` continue the union of the entry before it? */
  predicate SharesUnion(t: seq<Field>, i: nat)
    requires i < |t|
  {
    i > 0 && t[i].htype.Oneof? && t[i - 1].htype.Oneof? && t[i].dataOffset == PB_SIZE_MAX
  }

  /** The first member of the union that entry `i` belongs to; `i` itself outside unions. */
  function Leader(t: seq<Field>, i: nat): (j: nat)
    requires i < |t|
    ensures j <= i
    ensures t[i].htype.Oneof? <==> t[j].htype.Oneof?
  {
    if SharesUnion(t, i) then Leader(t, i - 1) else i
  }

  lemma {:induction false} LeaderStarts(t: seq<Field>, i: nat)
    requires i < |t|
    ensures !SharesUnion(t, Leader(t, i))
  {
    if !SharesUnion(t, i) {
    } else {
      LeaderStarts(t, i - 1);
    }
  }

  lemma LeaderOutside(t: seq<Field>, i: nat)
    requires i < |t|
    ensures !t[i].htype.Oneof? ==> Leader(t, i) == i
  {
  }

  /** The entry pb_field_iter_find stops at, when it starts from the first one. */
  function Find(t: seq<Field>, tag: nat): (r: Option<nat>)
    ensures r.Some? ==> r.value < |t| && t[r.value].tag == tag && !t[r.value].ltype.LExtension?
    ensures r.None? ==> forall i :: 0 <= i < |t| && t[i].tag == tag ==> t[i].ltype.LExtension?
  {
    FindFrom(t, tag, 0)
  }

  function FindFrom(t: seq<Field>, tag: nat, i: nat): (r: Option<nat>)
    requires i <= |t|
    ensures r.Some? ==> i <= r.value < |t| && t[r.value].tag == tag && !t[r.value].ltype.LExtension?
    ensures r.None? ==> forall j :: i <= j < |t| && t[j].tag == tag ==> t[j].ltype.LExtension?
    decreases |t| - i
  {
    if i == |t| then None
    else if t[i].tag == tag && !t[i].ltype.LExtension? then Some(i)
    else FindFrom(t, tag, i + 1)
  }

  /** The number of required fields before entry `i`. */
  function RequiredBefore(t: seq<Field>, i: nat): (n: nat)
    requires i <= |t|
    ensures n <= i
  {
    if i == 0 then 0
    else RequiredBefore(t, i - 1) + (if t[i - 1].htype.Required? then 1 else 0)
  }

  predicate DistinctTags(t: seq<Field>) {
    forall i, j :: 0 <= i < j < |t| ==> t[i].tag != t[j].tag
  }

  predicate NonZeroTags(t: seq<Field>) {
    forall i :: 0 <= i < |t| ==> t[i].tag != 0
  }

  /** A table as the generator macros of pb.h produce it, in the 8-bit configuration. */
  predicate WellFormed(t: seq<Field>) {
    && DistinctTags(t)
    && (forall i :: 0 <= i < |t| ==> WellFormedField(t[i]))
    && (forall i :: 0 <= i < |t| && SharesUnion(t, i) ==> t[i].sizeOffset == t[i - 1].sizeOffset)
  }

  predicate WellFormedField(f: Field) {
    && 0 < f.tag <= PB_SIZE_MAX
    && f.dataSize <= PB_SIZE_MAX && f.arraySize <= PB_SIZE_MAX
    && (f.htype.Required? ==> f.sizeOffset == 0)
    && (f.htype.Oneof? ==> f.sizeOffset != 0)
    && (f.ltype.LSubmessage? ==> f.ptr.Table?)
    && match f.ptr
       case Null => true
       case Table(fields) => WellFormed(fields)
       case Named(_) => true
       case Preset(v) => TypedValue(f, v)
  }

  /** Neither callbacks nor extensions nor heap pointers, at any depth. */
  predicate Plain(t: seq<Field>) {
    forall i :: 0 <= i < |t| ==> PlainField(t[i])
  }

  predicate PlainField(f: Field) {
    && f.atype.Static? && !f.ltype.LExtension?
    && match f.ptr
       case Null => true
       case Table(fields) => Plain(fields)
       case Named(_) => true
       case Preset(_) => true
  }

  lemma TableTags(t: seq<Field>)
    requires WellFormed(t)
    ensures NonZeroTags(t) && DistinctTags(t)
  {
    forall i | 0 <= i < |t| ensures t[i].tag != 0 {
      assert WellFormedField(t[i]);
    }
  }

  lemma FieldFacts(t: seq<Field>, i: nat)
    requires WellFormed(t) && Plain(t) && i < |t|
    ensures WellFormedField(t[i]) && PlainField(t[i]) && !t[i].ltype.LExtension?
  {
    assert WellFormedField(t[i]) && PlainField(t[i]);
  }

  // ------------------------------------------------------------------ structs that match a table

  /** How much is known of a struct: that its counts fit their pb_size_t, that they are within their arrays
      too, or that moreover every byte array fits its buffer next to its length and every string next to
      its terminator. */
  datatype Bound = Loose | Counted | Fitting

  /** The struct has the type its table describes. */
  predicate Typed(t: seq<Field>, m: seq<Slot>, bound: Bound := Counted)
    decreases t, 1
  {
    |m| == |t| && forall i :: 0 <= i < |t| ==> TypedSlot(t, i, m[i], bound)
  }

  predicate TypedSlot(t: seq<Field>, i: nat, x: Slot, bound: Bound := Counted)
    requires i < |t|
    decreases t, 0
  {
    var f := t[i];
    match f.htype
    case Required => x.Single? && TypedValue(f, x.v, bound)
    case Optional =>
      if f.Implicit() then x.Single? && TypedValue(f, x.v, bound) else x.Opt? && TypedValue(f, x.v, bound)
    case Repeated =>
      x.Arr? && |x.items| <= Limit(f, bound) &&
      forall k :: 0 <= k < |x.items| ==> TypedValue(f, x.items[k], bound)
    case Oneof =>
      if SharesUnion(t, i) then x.Shared?
      else x.Union? && (Selects(t, i, x.which) ==> TypedValue(t[Find(t, x.which).value], x.v, bound))
  }

  function Limit(f: Field, bound: Bound): nat {
    if bound.Loose? then PB_SIZE_MAX else f.arraySize
  }

  /** Does the tag `which` select a member of the union that starts at entry `i`? */
  predicate Selects(t: seq<Field>, i: nat, which: nat)
    requires i < |t|
  {
    var j := Find(t, which);
    j.Some? && t[j.value].htype.Oneof? && Leader(t, j.value) == i
  }

  predicate TypedValue(f: Field, v: Value, bound: Bound := Counted)
    decreases f
  {
    match f.ltype
    case LBool => v.VBool?
    case LVarint => v.VInt? && InSigned(f.dataSize, v.n)
    case LSVarint => v.VInt? && InSigned(f.dataSize, v.n)
    case LUVarint => v.VInt? && InUnsigned(f.dataSize, v.n)
    case LFixed32 => v.VInt? && InUnsigned(4, v.n)
    case LFixed64 => v.VInt? && InUnsigned(8, v.n)
    case LBytes => v.VBytes? && |v.s| <= PB_SIZE_MAX && (bound.Fitting? ==> |v.s| + 1 <= f.dataSize)
    case LString => v.VBytes? && |v.s| <= f.dataSize && (bound.Fitting? ==> |v.s| + 1 <= f.dataSize)
    case LFixedBytes => v.VBytes? && |v.s| == f.dataSize
    case LSubmessage => v.VMsg? && f.ptr.Table? && Typed(f.ptr.fields, v.slots, bound)
    case LExtension => true
  }

  // ------------------------------------------------------------------ initial values

  function Zeros(n: nat): (s: bytes)
    ensures |s| == n && forall i :: 0 <= i < n ==> s[i] == 0
  {
    seq(n, _ => 0)
  }

  /** The all-zero value of a field that is not a submessage. */
  function ZeroValue(f: Field): Value {
    match f.ltype
    case LBool => VBool(false)
    case LBytes => VBytes([])
    case LString => VBytes([])
    case LFixedBytes => VBytes(Zeros(f.dataSize))
    case LSubmessage => VMsg([])
    case LExtension => VBool(false)
    case _ => VInt(0)
  }

  /** The data pb_field_set_to_default stores: the defaults of a submessage, the preset value, or zeros. */
  function InitialValue(f: Field): Value
    decreases f
  {
    if f.ltype.LSubmessage? && f.ptr.Table? then VMsg(InitialMessage(f.ptr.fields))
    else if f.ptr.Preset? then f.ptr.v
    else ZeroValue(f)
  }

  /** What pb_field_set_to_default makes of entry `i`. */
  function InitialSlot(t: seq<Field>, i: nat): Slot
    requires i < |t|
    decreases t, 0
  {
    var f := t[i];
    match f.htype
    case Required => Single(InitialValue(f))
    case Optional => if f.Implicit() then Single(InitialValue(f)) else Opt(false, InitialValue(f))
    case Repeated => Arr([])
    case Oneof => if SharesUnion(t, i) then Shared else Union(0, VBool(false))
  }

  /** The struct pb_message_set_to_defaults leaves behind. */
  function InitialMessage(t: seq<Field>): (m: seq<Slot>)
    ensures |m| == |t|
    ensures forall i :: 0 <= i < |t| ==> m[i] == InitialSlot(t, i)
    decreases t, 1
  {
    seq(|t|, i requires 0 <= i < |t| => InitialSlot(t, i))
  }

  /** No buffer for bytes or a string is empty, and the presets fit theirs, at every depth. */
  predicate DefaultsFit(t: seq<Field>) {
    forall i :: 0 <= i < |t| ==> DefaultFits(t[i])
  }

  predicate DefaultFits(f: Field) {
    && (f.ltype.LBytes? || f.ltype.LString? ==> f.dataSize > 0)
    && match f.ptr
       case Table(fields) => DefaultsFit(fields)
       case Preset(v) => TypedValue(f, v, Fitting)
       case _ => true
  }

  lemma {:induction false} InitialTyped(t: seq<Field>, bound: Bound := Counted)
    requires WellFormed(t) && (bound.Fitting? ==> DefaultsFit(t))
    ensures Typed(t, InitialMessage(t), bound)
    decreases t, 1
  {
    var m := InitialMessage(t);
    forall i | 0 <= i < |t| ensures TypedSlot(t, i, m[i], bound) {
      assert WellFormedField(t[i]);
      InitialValueTyped(t[i], bound);
      if t[i].htype.Oneof? && !SharesUnion(t, i) { ZeroSelectsNothing(t, i); }
    }
  }

  lemma {:induction false} InitialValueTyped(f: Field, bound: Bound := Counted)
    requires WellFormedField(f) && (bound.Fitting? ==> DefaultFits(f))
    ensures TypedValue(f, InitialValue(f), bound)
    decreases f
  {
    if !f.ltype.LSubmessage? {
    } else {
      InitialTyped(f.ptr.fields, bound);
    }
  }

  lemma ZeroSelectsNothing(t: seq<Field>, i: nat)
    requires WellFormed(t) && i < |t|
    ensures !Selects(t, i, 0)
  {
    forall k | 0 <= k < |t| ensures t[k].tag != 0 {
      assert WellFormedField(t[k]);
    }
  }

  /** With distinct tags, a field is found by its own tag. */
  lemma FindOwn(t: seq<Field>, i: nat)
    requires DistinctTags(t) && i < |t| && !t[i].ltype.LExtension?
    ensures Find(t, t[i].tag) == Some(i)
  {
    var j := Find(t, t[i].tag);
    assert j.Some?;
  }
}
