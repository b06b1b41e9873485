/** Concrete inputs on which the code does less than its users might expect.  The general statements, of
    which these are instances, say exactly when. */
module Limits {
  import opened Wire
  import opened Descriptor
  import opened DecodeSpec
  import opened Defaults
  import opened EncodeSpec
  import opened FieldIter
  import opened Merge
  import opened RoundTrip

  /** A number field without has_ flag whose default is 7 cannot carry a zero: nothing is sent for it, and
      the receiver fills in the default. */
  lemma ZeroIsLost()
    ensures var t := [Field(1, LUVarint, Optional, AType.Static, 0, 0, 1, 0, Preset(VInt(7)))];
      WellFormed(t) && EncMessage(t, [Single(VInt(0))]) == Some([]) && Decode(t, []) == Ok([Single(VInt(7))], [])
      && !Arrives(t, [Single(VInt(0))])
  {
    var f := Field(1, LUVarint, Optional, AType.Static, 0, 0, 1, 0, Preset(VInt(7)));
    var t, b := [f], [Single(VInt(0))];
    assert WellFormedField(f);
    assert EncMessage(t, b) == Some([]) by {
      var none: bytes := [];
      assert EncField(t, b, 0) == Some(none) == EncFrom(t, b, 1);
      assert none + none == none;
    }
    assert !StartsAsZero(f);
    assert !ArrivesSlot(t, b, 0);
    assert Loop(t, Start(InitialMessage(t)), []) == Ok(Start(InitialMessage(t)), []);
    assert InitialMessage(t)[0] == InitialSlot(t, 0) == Single(VInt(7));
    assert InitialMessage(t) == [Single(VInt(7))];
  }

  /** Two copies of a message with one fixed-count array of one element: each is accepted, the two in a row
      are not. */
  lemma ConcatenationRejected()
    ensures var t := [Field(1, LUVarint, Repeated, AType.Static, 0, 0, 1, 1, Ptr.Null)];
      EncMessage(t, [Arr([VInt(5)])]) == Some([10, 1, 5])
      && Decode(t, [10, 1, 5]).Ok? && Decode(t, [10, 1, 5] + [10, 1, 5]).Fail?
  {
    var f := Field(1, LUVarint, Repeated, AType.Static, 0, 0, 1, 1, Ptr.Null);
    var t, b := [f], [Arr([VInt(5)])];
    assert WellFormedField(f) && PlainField(f);
    assert Typed(t, b) by { assert TypedSlot(t, 0, b[0]); }
    assert Complete(t, b) by { assert CompleteSlot(t, b, 0); }
    assert EncMessage(t, b) == Some([10, 1, 5]) by {
      var none: bytes := [];
      assert EncPacked(f, [VInt(5)][1..]) == Some(none);
      assert EncScalar(f, VInt(5)) == Some([5]) && [5] + none == [5];
      assert EncPacked(f, [VInt(5)]) == Some([5]);
      assert EncString([5]) == [1] + [5] && EncKey(1, 2) == [10];
      assert EncArray(f, [VInt(5)]) == Some([10] + ([1] + [5]));
      assert [10] + ([1] + [5]) == [10, 1, 5];
      assert EncField(t, b, 0) == Some([10, 1, 5]) && EncFrom(t, b, 1) == Some(none);
      assert [10, 1, 5] + none == [10, 1, 5];
    }
    assert OneFixedField(t) by { assert NonemptyFixed(t, 0); }
    RoundTripExact(t, b, [10, 1, 5]);
    assert Arrives(t, b) by { assert ArrivesSlot(t, b, 0); }
    ConcatenatedMessages(t, b, b, [10, 1, 5], [10, 1, 5]);
  }

  /** Two unions with exactly 255 bytes between them: the iterator takes the second for a member of the
      first and never leaves its address. */
  lemma PaddingMistakenForUnion()
    ensures var t := [Field(1, LUVarint, Oneof, AType.Static, 0, 1, 1, 0, Ptr.Null),
                      Field(2, LUVarint, Oneof, AType.Static, 255, 1, 1, 0, Ptr.Null)];
      var layout := [Member(0, 1, 1, false), Member(256, 257, 1, false)];
      Describes(t, layout) && DataPos(t, 0, 1) == 0 != layout[1].offset
  {
  }

  /** A ten-byte varint that is neither below 2^32 nor the sign extension of a negative int32, and yet
      passes as a length or a key. */
  lemma NarrowAcceptsOther(t: bytes)
    ensures DecVarint32(EncVarint(0x8000_0000_8000_0000) + t) == Ok(0x8000_0000, t)
  {
    hide DecVarint32, EncVarint;
    Pow128Values();
    var w := 0x8000_0000_8000_0000 / Pow128(5);
    assert w == 0x1000_0000;
    assert SignDigits(1, 9);
    assert SignDigits(w / 128 / 128 / 128, 8);
    assert SignDigits(w / 128 / 128, 7);
    assert SignDigits(w / 128, 6);
    NarrowAcceptsExactly(0x8000_0000_8000_0000, t);
  }
}
