/** What pb_encode.c writes, as functions from structs to byte strings; None is an encoding error other
    than a full stream.  Only static allocation is covered. */
module EncodeSpec {
  import opened Wire
  import opened Descriptor

  /** The characters of a C string in a buffer: up to the first zero byte, or the whole buffer. */
  function CStr(s: bytes): (r: bytes)
    ensures |r| <= |s|
    ensures forall i :: 0 <= i < |r| ==> r[i] == s[i] && r[i] != 0
    ensures |r| < |s| ==> s[|r|] == 0
  {
    if s == [] || s[0] == 0 then [] else [s[0]] + CStr(s[1..])
  }

  function EncKey(tag: nat, wireType: nat): bytes {
    EncVarint(8 * tag + wireType)
  }

  /** pb_encode_tag_for_field. */
  function EncKeyOf(f: Field): bytes {
    EncKey(f.tag, f.ltype.WireType())
  }

  /** pb_encode_string; the length is cast to 64 bits. */
  function EncString(s: bytes): bytes {
    EncVarint(ToU64(|s|)) + s
  }

  function IntOf(v: Value): int {
    if v.VInt? then v.n else 0
  }

  function NatOf(v: Value): nat {
    if v.VInt? && v.n >= 0 then v.n else 0
  }

  function BoolOf(v: Value): bool {
    v.VBool? && v.b
  }

  function BytesOf(v: Value): bytes {
    if v.VBytes? then v.s else []
  }

  /** The PB_ENCODERS entry of every type but submessages. */
  function EncScalar(f: Field, v: Value): Option<bytes> {
    match f.ltype
    case LBool => Some(EncVarint(if BoolOf(v) then 1 else 0))
    case LVarint => EncSigned(f.dataSize, IntOf(v))
    case LUVarint => EncUnsigned(f.dataSize, NatOf(v))
    case LSVarint => if InSigned(8, IntOf(v)) then EncZigZag(f.dataSize, IntOf(v)) else None
    case LFixed32 => Some(LittleEndian(NatOf(v), 4))
    case LFixed64 => Some(LittleEndian(NatOf(v), 8))
    case LBytes => if |BytesOf(v)| + 1 > f.dataSize then None else Some(EncString(BytesOf(v)))
    case LString => Some(EncString(CStr(BytesOf(v))))
    case LFixedBytes => Some(EncString(BytesOf(v)))
    case _ => None
  }

  /** All elements of a packed array, one after the other. */
  function EncPacked(f: Field, items: seq<Value>): Option<bytes> {
    if items == [] then Some([])
    else
      var e :- EncScalar(f, items[0]);
      var rest :- EncPacked(f, items[1..]);
      Some(e + rest)
  }

  /** pb_check_proto3_default_value for the data of a field without a has_ flag. */
  predicate DefaultData(f: Field, v: Value)
    decreases f, 0
  {
    match f.ltype
    case LBool => !BoolOf(v)
    case LBytes => BytesOf(v) == []
    case LString => CStr(BytesOf(v)) == []
    case LFixedBytes => f.dataSize == 0
    case LSubmessage => f.ptr.Table? ==> AllDefault(f.ptr.fields, SlotsOf(v))
    case _ => IntOf(v) == 0
  }

  predicate AllDefault(t: seq<Field>, m: seq<Slot>)
    decreases t, 1
  {
    forall i :: 0 <= i < |t| ==> DefaultSlot(t, m, i)
  }

  /** The slot that entry `i` looks at: for oneof members, the one holding the `which_` field. */
  function SlotOf(t: seq<Field>, m: seq<Slot>, i: nat): Slot
    requires i < |t|
  {
    At(m, Leader(t, i))
  }

  /** pb_check_proto3_default_value. */
  predicate DefaultSlot(t: seq<Field>, m: seq<Slot>, i: nat)
    requires i < |t|
    decreases t, 0
  {
    var f := t[i];
    var x := SlotOf(t, m, i);
    match f.htype
    case Required => false
    case Repeated => !f.FixedCount() && ItemsOf(x) == []
    case Oneof => x.Union? && x.which == 0
    case Optional => if f.Implicit() then DefaultData(f, ValueOf(x)) else x.Opt? && !x.has
  }

  /** The payload of one field. */
  function EncValue(f: Field, v: Value): Option<bytes>
    decreases f, 0
  {
    if !f.ltype.LSubmessage? then EncScalar(f, v)
    else if !f.ptr.Table? then None
    else
      var e :- EncMessage(f.ptr.fields, SlotsOf(v));
      Some(EncString(e))
  }

  /** A field that is present: its key and its payload. */
  function EncPresent(f: Field, v: Value): Option<bytes>
    requires !f.ltype.LExtension?
    decreases f, 1
  {
    var e :- EncValue(f, v);
    Some(EncKeyOf(f) + e)
  }

  /** The unpacked form of an array: every element with its own key. */
  function EncEach(f: Field, items: seq<Value>): Option<bytes>
    requires !f.ltype.LExtension?
    decreases f, 2, |items|
  {
    if items == [] then Some([])
    else
      var e :- EncPresent(f, items[0]);
      var rest :- EncEach(f, items[1..]);
      Some(e + rest)
  }

  /** encode_array. */
  function EncArray(f: Field, items: seq<Value>): Option<bytes>
    requires !f.ltype.LExtension?
    decreases f, 3
  {
    if items == [] then Some([])
    else if |items| > f.arraySize then None
    else if f.ltype.Packable() then
      var e :- EncPacked(f, items);
      Some(EncKey(f.tag, 2) + EncString(e))
    else EncEach(f, items)
  }

  /** Is entry `i`, when it is not an array, written at all? */
  predicate Sent(t: seq<Field>, m: seq<Slot>, i: nat)
    requires i < |t|
  {
    var f := t[i];
    var x := SlotOf(t, m, i);
    match f.htype
    case Required => true
    case Optional => if f.Implicit() then !DefaultData(f, ValueOf(x)) else x.Opt? && x.has
    case Oneof => x.Union? && x.which == f.tag
    case Repeated => true
  }

  /** encode_basic_field for entry `i`. */
  function EncField(t: seq<Field>, m: seq<Slot>, i: nat): Option<bytes>
    requires i < |t|
    decreases t, 0
  {
    var f := t[i];
    var x := SlotOf(t, m, i);
    if f.ltype.LExtension? then None
    else if f.htype.Repeated? then EncArray(f, ItemsOf(x))
    else if Sent(t, m, i) then EncPresent(f, ValueOf(x))
    else Some([])
  }

  /** The fields from entry `i` on. */
  function EncFrom(t: seq<Field>, m: seq<Slot>, i: nat): Option<bytes>
    requires i <= |t|
    decreases t, 1, |t| - i
  {
    if i == |t| then Some([])
    else
      var e :- EncField(t, m, i);
      var rest :- EncFrom(t, m, i + 1);
      Some(e + rest)
  }

  /** pb_encode. */
  function EncMessage(t: seq<Field>, m: seq<Slot>): Option<bytes>
    decreases t, 2
  {
    EncFrom(t, m, 0)
  }

  predicate AllTyped(f: Field, items: seq<Value>) {
    forall k :: 0 <= k < |items| ==> TypedValue(f, items[k], Loose)
  }

  /** What the table says about entry `i` and its slot. */
  lemma FieldOf(t: seq<Field>, m: seq<Slot>, i: nat)
    requires WellFormed(t) && Plain(t) && Typed(t, m, Loose) && i < |t|
    ensures WellFormedField(t[i]) && PlainField(t[i]) && !t[i].ltype.LExtension? && t[i].tag <= PB_SIZE_MAX
    ensures var f, x := t[i], SlotOf(t, m, i);
      match f.htype
      case Required => x.Single? && TypedValue(f, x.v, Loose)
      case Optional => (if f.Implicit() then x.Single? else x.Opt?) && TypedValue(f, x.v, Loose)
      case Repeated => x.Arr? && AllTyped(f, x.items)
      case Oneof => x.Union? && (x.which == f.tag ==> TypedValue(f, x.v, Loose))
  {
    hide TypedValue;
    var k := Leader(t, i);
    assert WellFormedField(t[i]) && PlainField(t[i]);
    assert TypedSlot(t, k, m[k], Loose);
    LeaderStarts(t, i);
    FindOwn(t, i);
  }

  /** Every element of every fixed-count array is known: what the encoder would read is determined. */
  predicate Complete(t: seq<Field>, m: seq<Slot>)
    decreases t, 1
  {
    forall i :: 0 <= i < |t| ==> CompleteSlot(t, m, i)
  }

  predicate CompleteSlot(t: seq<Field>, m: seq<Slot>, i: nat)
    requires i < |t|
    decreases t, 0
  {
    var f := t[i];
    var x := SlotOf(t, m, i);
    if f.htype.Repeated? then
      (f.FixedCount() ==> |ItemsOf(x)| == f.arraySize)
      && forall k :: 0 <= k < |ItemsOf(x)| ==> CompleteValue(f, ItemsOf(x)[k])
    else f.Implicit() || Sent(t, m, i) ==> CompleteValue(f, ValueOf(x))
  }

  predicate CompleteValue(f: Field, v: Value)
    decreases f
  {
    f.ltype.LSubmessage? && f.ptr.Table? ==> Complete(f.ptr.fields, SlotsOf(v))
  }

  lemma CompleteAt(t: seq<Field>, b: seq<Slot>, i: nat)
    requires Complete(t, b) && i < |t|
    ensures CompleteSlot(t, b, i)
  {
  }
}
