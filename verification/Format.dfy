/** The wire format as the Protocol Buffers Encoding specification describes it, for readers that do not have
    the table: what the encoder writes can be skipped field by field, keys carry the wire types of the
    specification, and skipping a payload is reading it. */
module Format {
  import opened Wire
  import opened Descriptor
  import opened DecodeSpec
  import opened EncodeSpec
  import opened Concat
  import opened Merge

  // ------------------------------------------------------------------ skipping

  /** A varint ends with its first byte without the continuation bit, however long it is. */
  lemma {:induction false} SkipVarintExactly(s: bytes, n: nat)
    requires n < |s| && s[n] < 128 && forall k :: 0 <= k < n ==> s[k] >= 128
    ensures SkipField(0, s) == Ok((), s[n + 1..])
    decreases n
  {
    LengthOfVarint(s, n);
  }

  lemma {:induction false} LengthOfVarint(s: bytes, n: nat)
    requires n <= |s| && (n < |s| ==> s[n] < 128) && forall k :: 0 <= k < n ==> s[k] >= 128
    ensures VarintLen(s) == if n == |s| then 0 else n + 1
    decreases n
  {
    if n == 0 {
    } else {
      LengthOfVarint(s[1..], n - 1);
    }
  }

  /** Without such a byte, there is nothing to skip to. */
  lemma SkipVarintFails(s: bytes)
    requires forall k :: 0 <= k < |s| ==> s[k] >= 128
    ensures SkipField(0, s).Fail?
  {
    LengthOfVarint(s, |s|);
  }

  /** Every encoded number is skipped whole. */
  lemma SkipNumber(v: nat, t: bytes)
    ensures SkipField(0, EncVarint(v) + t) == Ok((), t)
  {
    EncVarintDigits(v, t);
    assert (EncVarint(v) + t)[|EncVarint(v)|..] == t;
  }

  /** Skipping a payload leads to where reading it leads, for every type and whatever the payload is. */
  lemma SkipAgrees(f: Field, prior: Value, s: bytes)
    requires DecValue(f, prior, s).Ok?
    ensures SkipField(f.ltype.WireType(), s) == Ok((), DecValue(f, prior, s).rest)
  {
    hide DecVarint32, Base128, FromLittleEndian, DecodeNoInit, Wrap, Truncate, UnZigZag;
    match f.ltype {
      case LBool => DecVarint32Ends(s);
      case LVarint => assert DecVarint64(s).rest == s[VarintLen(s)..];
      case LUVarint => assert DecVarint64(s).rest == s[VarintLen(s)..];
      case LSVarint => assert DecVarint64(s).rest == s[VarintLen(s)..];
      case LFixed32 =>
      case LFixed64 =>
      case LBytes =>
      case LString =>
      case LFixedBytes =>
      case LSubmessage =>
      case LExtension =>
    }
  }

  /** Fixed-size numbers are skipped exactly when they can be read. */
  lemma SkipFixedAgrees(f: Field, prior: Value, s: bytes)
    requires f.ltype.LFixed32? || f.ltype.LFixed64?
    ensures SkipField(f.ltype.WireType(), s).Ok? <==> DecValue(f, prior, s).Ok?
  {
    hide FromLittleEndian;
  }

  /** A packed run is skipped like any other payload behind a length. */
  lemma SkipPayload(p: bytes, t: bytes)
    requires |p| < 0x1_0000_0000
    ensures SkipField(2, EncString(p) + t) == Ok((), t)
  {
    hide DecVarint32, EncString;
    BytesBack(p, t);
  }

  /** No other wire type can be skipped: not the deprecated groups, and not the unassigned numbers. */
  lemma SkipNothingElse(wireType: nat, s: bytes)
    requires wireType != 0 && wireType != 1 && wireType != 2 && wireType != 5
    ensures SkipField(wireType, s).Fail?
  {
  }

  // ------------------------------------------------------------------ what is written

  lemma PayloadSkipped(f: Field, v: Value, e: bytes, t: bytes)
    requires EncValue(f, v) == Some(e) && |e| < 0x1_0000_0000
    ensures SkipField(f.ltype.WireType(), e + t) == Ok((), t)
  {
    hide SkipField, EncVarint, LittleEndian, EncString, EncMessage, CStr, ZigZag;
    match f.ltype {
      case LBool => SkipNumber(if BoolOf(v) then 1 else 0, t);
      case LVarint => SkipNumber(ToU64(IntOf(v)), t);
      case LUVarint => SkipNumber(NatOf(v), t);
      case LSVarint => SkipNumber(ZigZag(IntOf(v)), t);
      case LFixed32 => SkipBytesOf(e, t);
      case LFixed64 => SkipBytesOf(e, t);
      case LBytes => StringPayload(BytesOf(v), t);
      case LString => StringPayload(CStr(BytesOf(v)), t);
      case LFixedBytes => StringPayload(BytesOf(v), t);
      case LSubmessage => StringPayload(EncMessage(f.ptr.fields, SlotsOf(v)).value, t);
      case LExtension =>
    }
  }

  lemma StringPayload(p: bytes, t: bytes)
    requires |EncString(p)| < 0x1_0000_0000
    ensures SkipField(2, EncString(p) + t) == Ok((), t)
  {
    StringLonger(p);
    SkipPayload(p, t);
  }

  lemma SkipBytesOf(e: bytes, t: bytes)
    requires |e| == 4 || |e| == 8
    ensures SkipField(if |e| == 8 then 1 else 5, e + t) == Ok((), t)
  {
    assert (e + t)[|e|..] == t;
  }

  /** The key in front of a field: its number, and the wire type the specification gives its type. */
  lemma WrittenKey(f: Field, v: Value, s: bytes)
    requires WellFormedField(f) && !f.ltype.LExtension? && EncPresent(f, v).Some?
    ensures var k := DecVarint32(EncPresent(f, v).value + s);
      && k.Ok? && k.value / 8 == f.tag
      && k.value % 8 ==
         if f.ltype in {LBool, LVarint, LUVarint, LSVarint} then 0
         else if f.ltype == LFixed64 then 1
         else if f.ltype == LFixed32 then 5
         else 2
  {
    hide DecVarint32, EncVarint, EncValue;
    var e := EncValue(f, v).value;
    NarrowSmall(8 * f.tag + f.ltype.WireType(), e + s);
    assert EncPresent(f, v).value + s == EncKeyOf(f) + (e + s);
  }

  /** A receiver whose table does not have the field skips exactly its bytes. */
  lemma PresentIsSkippable(tab: seq<Field>, f: Field, v: Value, e: bytes)
    requires WellFormedField(f) && !f.ltype.LExtension? && Find(tab, f.tag).None?
    requires EncPresent(f, v) == Some(e) && |e| < 0x1_0000_0000
    ensures UnknownField(tab, e)
  {
    hide DecVarint32, EncVarint, EncValue, SkipField, Find;
    var p := EncValue(f, v).value;
    var key := 8 * f.tag + f.ltype.WireType();
    NarrowSmall(key, p);
    assert key / 8 == f.tag && key % 8 == f.ltype.WireType();
    PayloadSkipped(f, v, p, []);
    assert p + [] == p;
  }

  /** A nonempty array of numbers is one packed run under wire type 2; one of another type starts with the
      key of its first element. */
  lemma ArrayKey(f: Field, items: seq<Value>) returns (rest: bytes)
    requires !f.ltype.LExtension? && items != [] && EncArray(f, items).Some?
    ensures EncArray(f, items).value == EncKey(f.tag, 2) + rest
    ensures f.ltype in {LBool, LVarint, LUVarint, LSVarint, LFixed32, LFixed64} ==>
      EncPacked(f, items).Some? && rest == EncString(EncPacked(f, items).value)
  {
    hide EncVarint, EncPacked, EncValue;
    PackableTypes(f.ltype);
    if f.ltype.WireType() != 2 {
      rest := EncString(EncPacked(f, items).value);
    } else {
      var e0, more := EachFirst(f, items);
      rest := e0 + more;
      assert EncKeyOf(f) + e0 + more == EncKey(f.tag, 2) + rest;
    }
  }

  /** So is a whole packed array. */
  lemma PackedIsSkippable(tab: seq<Field>, f: Field, p: bytes)
    requires WellFormedField(f) && Find(tab, f.tag).None? && |p| < 0x1_0000_0000
    ensures UnknownField(tab, EncKey(f.tag, 2) + EncString(p))
  {
    hide DecVarint32, EncVarint, EncString, SkipField, Find;
    var key := 8 * f.tag + 2;
    NarrowSmall(key, EncString(p));
    assert key / 8 == f.tag && key % 8 == 2;
    SkipPayload(p, []);
    assert EncString(p) + [] == EncString(p);
  }

  // ------------------------------------------------------------------ whole messages

  lemma {:induction false} EachSkipped(tab: seq<Field>, st: State, f: Field, items: seq<Value>, e: bytes, s: bytes)
    requires WellFormedField(f) && !f.ltype.LExtension? && Find(tab, f.tag).None?
    requires EncEach(f, items) == Some(e) && |e| < 0x1_0000_0000
    ensures Loop(tab, st, e + s) == Loop(tab, st, s)
    decreases |items|
  {
    hide EncPresent, Loop, WellFormedField, UnknownField, Find;
    if items == [] {
      assert e + s == s;
    } else {
      var e0, rest := EncPresent(f, items[0]).value, EncEach(f, items[1..]).value;
      assert e + s == e0 + (rest + s);
      PresentIsSkippable(tab, f, items[0], e0);
      UnknownStep(tab, st, e0, rest + s);
      EachSkipped(tab, st, f, items[1..], rest, s);
    }
  }

  lemma FieldSkipped(tab: seq<Field>, st: State, t: seq<Field>, m: seq<Slot>, i: nat, e: bytes, s: bytes)
    requires WellFormed(t) && i < |t| && Find(tab, t[i].tag).None?
    requires EncField(t, m, i) == Some(e) && |e| < 0x1_0000_0000
    ensures Loop(tab, st, e + s) == Loop(tab, st, s)
  {
    hide EncPresent, EncPacked, EncEach, Loop, WellFormedField, UnknownField, Find, Sent, EncVarint, EncString, EncKey;
    var f := t[i];
    assert WellFormedField(f);
    if e == [] {
      assert e + s == s;
    } else if !f.htype.Repeated? {
      PresentIsSkippable(tab, f, ValueOf(SlotOf(t, m, i)), e);
      UnknownStep(tab, st, e, s);
    } else if f.ltype.Packable() {
      var p := EncPacked(f, ItemsOf(SlotOf(t, m, i))).value;
      StringLonger(p);
      PackedIsSkippable(tab, f, p);
      UnknownStep(tab, st, e, s);
    } else {
      EachSkipped(tab, st, f, ItemsOf(SlotOf(t, m, i)), e, s);
    }
  }

  lemma {:induction false} FromSkipped(tab: seq<Field>, st: State, t: seq<Field>, m: seq<Slot>, i: nat, e: bytes,
      s: bytes)
    requires WellFormed(t) && i <= |t| && forall k :: 0 <= k < |t| ==> Find(tab, t[k].tag).None?
    requires EncFrom(t, m, i) == Some(e) && |e| < 0x1_0000_0000
    ensures Loop(tab, st, e + s) == Loop(tab, st, s)
    decreases |t| - i
  {
    hide EncField, Loop, WellFormed, Find;
    if i == |t| {
      assert e + s == s;
    } else {
      var e0, rest := EncField(t, m, i).value, EncFrom(t, m, i + 1).value;
      assert e + s == e0 + (rest + s);
      FieldSkipped(tab, st, t, m, i, e0, rest + s);
      FromSkipped(tab, st, t, m, i + 1, rest, s);
    }
  }

  /** A receiver that knows none of the fields of a message skips all of it: every encoded message, of any
      table, is a sequence of fields with the wire types and lengths of the specification. */
  lemma ForeignMessageSkipped(tab: seq<Field>, d: seq<Slot>, t: seq<Field>, m: seq<Slot>, e: bytes, s: bytes)
    requires WellFormed(t) && forall k :: 0 <= k < |t| ==> Find(tab, t[k].tag).None?
    requires EncMessage(t, m) == Some(e) && |e| < 0x1_0000_0000
    ensures DecodeNoInit(tab, d, e + s) == DecodeNoInit(tab, d, s)
  {
    hide EncFrom, Loop, WellFormed, Find, FixedDone, RequiredDone;
    FromSkipped(tab, Start(d), t, m, 0, e, s);
  }

  // ------------------------------------------------------------------ what is accepted

  /** The decoder never looks at the wire type of a declared field, except to tell a packed run. */
  lemma WireTypeIgnored(t: seq<Field>, st: State, i: nat, w: nat, w': nat, s: bytes)
    requires i < |t|
    requires t[i].htype.Repeated? && t[i].ltype.WireType() != 2 ==> (w == 2 <==> w' == 2)
    ensures DecField(t, st, i, w, s) == DecField(t, st, i, w', s)
  {
    hide DecValue, DecPacked, DecVarint32, InitialValue, Store;
    PackableTypes(t[i].ltype);
  }

  /** Booleans: true is written as 1, and every number but 0 is read as true. */
  lemma Booleans(f: Field, b: bool, n: nat, t: bytes)
    requires f.ltype.LBool? && n < 0x1_0000_0000
    ensures EncScalar(f, VBool(b)) == Some([if b then 1 else 0])
    ensures DecScalar(f, EncVarint(n) + t) == Ok(VBool(n != 0), t)
  {
    hide DecVarint32;
    NarrowSmall(n, t);
  }

  /** Which contents a bytes, string or fixed-length field accepts: those that fit, next to the length byte
      or the terminator; a fixed-length field also an empty payload, for zeros. */
  lemma ContentsAccepted(f: Field, p: bytes, t: bytes)
    requires f.dataSize <= PB_SIZE_MAX && |p| < 0x1_0000_0000
    requires f.ltype.LBytes? || f.ltype.LString? || f.ltype.LFixedBytes?
    ensures DecScalar(f, EncString(p) + t) ==
      if f.ltype.LFixedBytes? then
        if p == [] then Ok(VBytes(seq(f.dataSize, _ => 0)), t) else if |p| == f.dataSize then Ok(VBytes(p), t) else Fail
      else if |p| < f.dataSize then Ok(VBytes(p), t) else Fail
  {
    hide DecVarint32, EncString;
    BytesBack(p, t);
    assert Zeros(f.dataSize) == seq(f.dataSize, _ => 0);
  }

  // ------------------------------------------------------------------ examples

  /** The specification's example of a varint field: 150 in field 1. */
  lemma VarintExample()
    ensures var f := Field(1, LVarint, Optional, AType.Static, 0, 1, 4, 0, Ptr.Null);
      EncPresent(f, VInt(150)) == Some([0x08, 0x96, 0x01])
  {
    var f := Field(1, LVarint, Optional, AType.Static, 0, 1, 4, 0, Ptr.Null);
    var e: bytes := [0x96] + [0x01];
    assert EncVarint(1) == [0x01];
    assert EncVarint(150) == e;
    assert EncValue(f, VInt(150)) == Some(e);
    assert EncKeyOf(f) == [0x08];
    assert [0x08] + e == [0x08, 0x96, 0x01];
  }

  /** Of a string: "testing" in field 2. */
  lemma StringExample()
    ensures var f := Field(2, LString, Optional, AType.Static, 0, 1, 8, 0, Ptr.Null);
      EncPresent(f, VBytes([0x74, 0x65, 0x73, 0x74, 0x69, 0x6E, 0x67]))
      == Some([0x12, 0x07, 0x74, 0x65, 0x73, 0x74, 0x69, 0x6E, 0x67])
  {
    hide CStr;
    var f := Field(2, LString, Optional, AType.Static, 0, 1, 8, 0, Ptr.Null);
    var p: bytes := [0x74, 0x65, 0x73, 0x74, 0x69, 0x6E, 0x67];
    assert CStr(p) == p;
    assert EncString(p) == [0x07] + p;
    assert EncValue(f, VBytes(p)) == Some([0x07] + p);
    assert EncKeyOf(f) == [0x12];
    assert [0x12] + ([0x07] + p) == [0x12, 0x07, 0x74, 0x65, 0x73, 0x74, 0x69, 0x6E, 0x67];
  }

  /** Of a packed field: 3, 270 and 86942 in field 6. */
  lemma PackedExample()
    ensures var f := Field(6, LVarint, Repeated, AType.Static, 0, 1, 4, 3, Ptr.Null);
      EncArray(f, [VInt(3), VInt(270), VInt(86942)]) == Some([0x32, 0x06, 0x03, 0x8E, 0x02, 0x9E, 0xA7, 0x05])
  {
    var f := Field(6, LVarint, Repeated, AType.Static, 0, 1, 4, 3, Ptr.Null);
    var none: bytes := [];
    assert EncVarint(270) == [0x8E] + EncVarint(2) == [0x8E, 0x02];
    assert EncVarint(679) == [0xA7] + EncVarint(5) == [0xA7, 0x05];
    assert EncVarint(86942) == [0x9E] + EncVarint(679) == [0x9E, 0xA7, 0x05];
    assert EncPacked(f, []) == Some(none);
    var c, b, a := [VInt(86942)], [VInt(270), VInt(86942)], [VInt(3), VInt(270), VInt(86942)];
    assert c[1..] == [] && b[1..] == c && a[1..] == b;
    assert EncPacked(f, c) == Some([0x9E, 0xA7, 0x05] + none);
    assert [0x9E, 0xA7, 0x05] + none == [0x9E, 0xA7, 0x05];
    assert EncPacked(f, b) == Some([0x8E, 0x02] + [0x9E, 0xA7, 0x05]);
    assert EncPacked(f, a) == Some([0x03] + ([0x8E, 0x02] + [0x9E, 0xA7, 0x05]));
    var p: bytes := [0x03] + ([0x8E, 0x02] + [0x9E, 0xA7, 0x05]);
    assert EncString(p) == [0x06] + p;
    assert EncKey(6, 2) == [0x32];
    assert [0x32] + ([0x06] + p) == [0x32, 0x06, 0x03, 0x8E, 0x02, 0x9E, 0xA7, 0x05];
  }
}
