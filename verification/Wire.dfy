/** The wire primitives of pb_encode.c and pb_decode.c as functions on byte strings: varints in both
    widths, zig-zag numbers, little-endian fixed-size numbers, and the field-width conversions. */
module Wire {
  import opened Bits

  type byte = b: int | 0 <= b < 256
  type bytes = seq<byte>

  datatype Option<+T> = None | Some(value: T) {
    predicate IsFailure() { None? }
    function PropagateFailure<U>(): Option<U> requires None? { None }
    function Extract(): T requires Some? { value }
  }

  /** What a decoder returns: an error, or a value and the bytes it left unread. */
  datatype Parsed<+T> = Fail | Ok(value: T, rest: bytes) {
    predicate IsFailure() { Fail? }
    function PropagateFailure<U>(): Parsed<U> requires Fail? { Fail }
    function Extract(): (T, bytes) requires Ok? { (value, rest) }

    /** The same result with `t` still to be read after it. */
    function Then(t: bytes): Parsed<T> {
      if Ok? then Ok(value, rest + t) else Fail
    }
  }

  // ------------------------------------------------------------------ base 128

  function Pow128(n: nat): (r: nat)
    ensures r > 0
  {
    if n == 0 then 1 else 128 * Pow128(n - 1)
  }

  /** `d` in the n-th base-128 place. */
  function Digit(d: nat, n: nat): nat {
    if n == 0 then d else 128 * Digit(d, n - 1)
  }

  lemma {:induction false} DigitIsShift(d: nat, n: nat)
    ensures Shl(d, 7 * n) == Digit(d, n) && Pow2(7 * n) == Pow128(n)
  {
    if n == 0 {
    } else {
      DigitIsShift(d, n - 1);
      SevenShifts(d, 7 * (n - 1));
    }
  }

  lemma SevenShifts(d: nat, k: nat)
    ensures Shl(d, k + 7) == 128 * Shl(d, k) && Pow2(k + 7) == 128 * Pow2(k)
  {
    assert Shl(d, k + 1) == 2 * Shl(d, k) && Pow2(k + 1) == 2 * Pow2(k);
    assert Shl(d, k + 2) == 4 * Shl(d, k) && Pow2(k + 2) == 4 * Pow2(k);
    assert Shl(d, k + 3) == 8 * Shl(d, k) && Pow2(k + 3) == 8 * Pow2(k);
    assert Shl(d, k + 4) == 16 * Shl(d, k) && Pow2(k + 4) == 16 * Pow2(k);
    assert Shl(d, k + 5) == 32 * Shl(d, k) && Pow2(k + 5) == 32 * Pow2(k);
    assert Shl(d, k + 6) == 64 * Shl(d, k) && Pow2(k + 6) == 64 * Pow2(k);
  }

  /** Places are linear: d + 128 * e in place n is d in place n plus e in place n + 1. */
  lemma {:induction false} DigitSum(d: nat, e: nat, n: nat)
    ensures Digit(d + 128 * e, n) == Digit(d, n) + Digit(e, n + 1)
  {
    if n == 0 {
    } else {
      DigitSum(d, e, n - 1);
    }
  }

  lemma {:induction false} DigitBound(d: nat, n: nat)
    requires d < 128
    ensures Digit(d, n) + Pow128(n) <= Pow128(n + 1)
    ensures d > 0 ==> Digit(d, n) >= Pow128(n)
  {
    if n == 0 {
    } else {
      DigitBound(d, n - 1);
    }
  }


  lemma Pow128Values()
    ensures Pow128(1) == 0x80 && Pow128(2) == 0x4000 && Pow128(3) == 0x20_0000 && Pow128(4) == 0x1000_0000
    ensures Pow128(5) == 0x8_0000_0000 && Pow128(9) == 0x8000_0000_0000_0000
      && Pow128(10) == 128 * 0x8000_0000_0000_0000
  {
    assert Pow128(2) == 128 * Pow128(1);
    assert Pow128(4) == 128 * 128 * Pow128(2);
    assert Pow128(6) == 128 * 128 * Pow128(4);
    assert Pow128(8) == 128 * 128 * Pow128(6);
  }

  /** The number whose base-128 digits, least significant first, are the low seven bits of each byte. */
  function Base128(s: bytes): nat {
    if s == [] then 0 else s[0] % 128 + 128 * Base128(s[1..])
  }

  /** The length of the varint at the start of `s`: up to and including the first byte without the
      continuation bit; 0 if there is none. */
  function VarintLen(s: bytes): (n: nat)
    ensures n <= |s|
  {
    if s == [] then 0
    else if s[0] < 128 then 1
    else
      var n := VarintLen(s[1..]);
      if n == 0 then 0 else n + 1
  }

  /** What pb_encode_varint writes. */
  function EncVarint(v: nat): (s: bytes)
    ensures |s| > 0
  {
    if v < 128 then [v] else [v % 128 + 128] + EncVarint(v / 128)
  }

  /** What pb_decode_varint accepts and returns. */
  function DecVarint64(s: bytes): (r: Parsed<nat>)
    ensures r.Ok? ==> |r.rest| < |s| && r.value < 0x1_0000_0000_0000_0000
  {
    var n := VarintLen(s);
    if n == 0 || n > 10 then Fail else Ok(Base128(s[..n]) % 0x1_0000_0000_0000_0000, s[n..])
  }

  lemma {:induction false} EncVarintDigits(v: nat, t: bytes)
    ensures VarintLen(EncVarint(v) + t) == |EncVarint(v)|
    ensures Base128(EncVarint(v)) == v
  {
    if v < 128 {
      assert Base128([v]) == v % 128 + 128 * Base128([]);
    } else {
      EncVarintDigits(v / 128, t);
      var e := EncVarint(v / 128);
      var w := EncVarint(v);
      assert w[1..] == e;
      assert (w + t)[1..] == e + t;
      assert VarintLen(w + t) == VarintLen(e + t) + 1;
    }
  }

  lemma {:induction false} EncVarintLength(v: nat, k: nat)
    requires k > 0
    ensures |EncVarint(v)| <= k <==> v < Pow128(k)
  {
    if v < 128 {
      assert Pow128(k) == 128 * Pow128(k - 1);
    } else if k == 1 {
      assert Pow128(1) == 128 * Pow128(0);
    } else {
      EncVarintLength(v / 128, k - 1);
    }
  }

  /** A complete varint of at most ten bytes is decoded to its digits, whatever follows. */
  lemma DecVarint64Of(e: bytes, t: bytes)
    requires 0 < |e| <= 10 && VarintLen(e + t) == |e|
    ensures DecVarint64(e + t) == Ok(Base128(e) % 0x1_0000_0000_0000_0000, t)
  {
    assert (e + t)[..|e|] == e && (e + t)[|e|..] == t;
  }

  /** Every 64-bit value comes back from its encoding, whatever follows it, and the encoding takes at
      most ten bytes. */
  lemma VarintRoundTrip(v: nat, t: bytes)
    requires v < 0x1_0000_0000_0000_0000
    ensures DecVarint64(EncVarint(v) + t) == Ok(v, t)
    ensures |EncVarint(v)| <= 10
  {
    hide Base128, VarintLen, Pow128, EncVarint;
    var e := EncVarint(v);
    EncVarintDigits(v, t);
    assert |e| <= 10 by {
      assert v < Pow128(10) by { Pow128Values(); }
      EncVarintLength(v, 10);
    }
    DecVarint64Of(e, t);
  }

  /** No varint for the same number is shorter. */
  lemma {:induction false} VarintMinimal(s: bytes)
    requires s != [] && VarintLen(s) == |s|
    ensures |EncVarint(Base128(s))| <= |s|
  {
    if |s| > 1 {
      VarintMinimal(s[1..]);
      var b := Base128(s[1..]);
      assert Base128(s) / 128 == b;
    } else {
      assert Base128(s[1..]) == 0;
    }
  }

  lemma {:induction false} VarintLenExtends(s: bytes, t: bytes)
    requires VarintLen(s) > 0
    ensures VarintLen(s + t) == VarintLen(s)
  {
    assert (s + t)[1..] == s[1..] + t;
    if s[0] < 128 {
    } else {
      VarintLenExtends(s[1..], t);
    }
  }

  lemma DecVarint64Extends(s: bytes, t: bytes)
    requires DecVarint64(s).Ok?
    ensures DecVarint64(s + t) == DecVarint64(s).Then(t)
  {
    var n := VarintLen(s);
    VarintLenExtends(s, t);
    assert (s + t)[..n] == s[..n];
    assert (s + t)[n..] == s[n..] + t;
  }

  /** `result | (uint64_t)d << bitpos`. */
  function OrShifted64(result: nat, d: nat, bitpos: nat): nat {
    BitOr(result, Shl(d, bitpos) % 0x1_0000_0000_0000_0000)
  }

  lemma NinthPower()
    ensures Pow128(9) == 0x8000_0000_0000_0000
  {
    Pow128Values();
  }

  /** Adding the k-th digit to a 64-bit word: only bit 63 is left for the tenth. */
  lemma OrDigit64(acc: nat, d: nat, k: nat)
    requires k <= 9 && acc < Pow128(k) && d < 128
    ensures OrShifted64(acc, d, 7 * k) == (acc + Digit(d, k)) % 0x1_0000_0000_0000_0000
    ensures k < 9 ==> acc + Digit(d, k) < Pow128(k + 1) <= 0x8000_0000_0000_0000
  {
    hide BitOr, Shl, Pow2, Digit, Pow128;
    DigitIsShift(d, k);
    NinthPower();
    if k < 9 {
      DigitBound(d, k);
      PowerUpTo(k + 1, 9);
      DisjointOr(acc, d, 7 * k);
    } else {
      OrTenthDigit(acc, d);
    }
  }

  lemma OrTenthDigit(acc: nat, d: nat)
    requires acc < Pow128(9)
    ensures OrShifted64(acc, d, 63) == (acc + Digit(d, 9)) % 0x1_0000_0000_0000_0000
  {
    hide BitOr, Shl, Pow2, Digit, Pow128;
    NinthPower();
    DigitIsShift(d, 9);
    DigitIsShift(d % 2, 9);
    TenthDigit(d);
    TenthDigit(d % 2);
    DisjointOr(acc, d % 2, 63);
    var low, high := d % 2, d / 2;
    assert d == 2 * high + low;
    AboveWord(Digit(low, 9), high);
    AboveWord(acc + Digit(low, 9), high);
  }

  lemma AboveWord(x: nat, q: nat)
    requires x < 0x1_0000_0000_0000_0000
    ensures (x + 0x1_0000_0000_0000_0000 * q) % 0x1_0000_0000_0000_0000 == x
  {
  }

  lemma {:induction false} PowerUpTo(j: nat, k: nat)
    requires j <= k
    ensures Pow128(j) <= Pow128(k)
  {
    if j == k {
    } else {
      PowerUpTo(j, k - 1);
    }
  }

  lemma TenthDigit(d: nat)
    ensures Digit(d, 9) == 0x8000_0000_0000_0000 * d
  {
    FourthDigit(d);
    assert Digit(d, 7) == 0x4000 * Digit(d, 5);
    assert Digit(d, 9) == 0x4000 * Digit(d, 7);
  }

  /** Reading one more byte adds one more digit. */
  lemma {:induction false} Base128Snoc(s: bytes, b: byte)
    ensures Base128(s + [b]) == Base128(s) + Digit(b % 128, |s|)
  {
    hide Pow128;
    if s == [] {
      assert Base128([b]) == b % 128 + 128 * Base128([b][1..]);
    } else {
      assert (s + [b])[1..] == s[1..] + [b];
      Base128Snoc(s[1..], b);
    }
  }

  // ------------------------------------------------------------------ 32-bit varints

  /** `result | (uint32_t)d << bitpos`. */
  function OrShifted(result: nat, d: nat, bitpos: nat): nat {
    BitOr(result, Shl(d, bitpos) % 0x1_0000_0000)
  }

  /** The loop of pb_decode_varint32_eof, entered with the bits gathered so far.  The bit position is a
      `uint_fast8_t`, taken here as eight bits wide, so it wraps after 36 bytes. */
  function DecVarint32From(s: bytes, bitpos: nat, result: nat): (r: Parsed<nat>)
    ensures r.Ok? ==> |r.rest| < |s|
  {
    if s == [] then Fail
    else
      var b := s[0];
      var signExtension := if bitpos < 63 then 0xFF else 0x01;
      if bitpos >= 32 && b % 128 != 0 && (result < 0x8000_0000 || b != signExtension) then Fail
      else
        var result' := if bitpos >= 32 then result else OrShifted(result, b % 128, bitpos);
        var bitpos' := (bitpos + 7) % 256;
        if b >= 128 then DecVarint32From(s[1..], bitpos', result')
        else if bitpos' == 35 && b / 16 % 8 != 0 then Fail
        else Ok(result', s[1..])
  }

  /** What pb_decode_varint32 accepts and returns. */
  function DecVarint32(s: bytes): (r: Parsed<nat>)
    ensures r.Ok? ==> |r.rest| < |s|
  {
    if s == [] then Fail
    else if s[0] < 128 then Ok(s[0], s[1..])
    else DecVarint32From(s[1..], 7, s[0] % 128)
  }

  lemma OrShiftedZero(d: nat)
    requires d < 128
    ensures OrShifted(0, d, 0) == d
  {
    hide BitOr;
    OrZero(d);
    assert Shl(d, 0) == d;
  }

  lemma DecVarint32Starts(s: bytes)
    ensures DecVarint32(s) == DecVarint32From(s, 0, 0)
  {
    hide OrShifted;
    if s != [] {
      var d := s[0] % 128;
      assert OrShifted(0, d, 0) == d by { OrShiftedZero(d); }
    }
  }

  /** One accepted byte: it joins the word while its bit position is inside it. */
  lemma DecVarint32Byte(s: bytes, bitpos: nat, result: nat)
    requires DecVarint32From(s, bitpos, result).Ok?
    ensures var result' := if bitpos >= 32 then result else OrShifted(result, s[0] % 128, bitpos);
      s != [] && DecVarint32From(s, bitpos, result) ==
      if s[0] >= 128 then DecVarint32From(s[1..], (bitpos + 7) % 256, result') else Ok(result', s[1..])
  {
    hide OrShifted;
  }

  lemma {:induction false} DecVarint32FromExtends(s: bytes, t: bytes, bitpos: nat, result: nat)
    requires DecVarint32From(s, bitpos, result).Ok?
    ensures DecVarint32From(s + t, bitpos, result) == DecVarint32From(s, bitpos, result).Then(t)
  {
    assert (s + t)[1..] == s[1..] + t;
    if s[0] < 128 {
    } else {
      var result' := if bitpos >= 32 then result else OrShifted(result, s[0] % 128, bitpos);
      DecVarint32FromExtends(s[1..], t, (bitpos + 7) % 256, result');
    }
  }

  lemma DecVarint32Extends(s: bytes, t: bytes)
    requires DecVarint32(s).Ok?
    ensures DecVarint32(s + t) == DecVarint32(s).Then(t)
  {
    DecVarint32Starts(s);
    DecVarint32Starts(s + t);
    DecVarint32FromExtends(s, t, 0, 0);
  }

  lemma {:induction false} DecVarint32FromBound(s: bytes, bitpos: nat, result: nat)
    requires result < 0x1_0000_0000
    requires DecVarint32From(s, bitpos, result).Ok?
    ensures DecVarint32From(s, bitpos, result).value < 0x1_0000_0000
  {
    var r2 := if bitpos >= 32 then result else OrShifted(result, s[0] % 128, bitpos);
    assert r2 < 0x1_0000_0000 by {
      Pow2Of32();
      if bitpos < 32 { OrBound(result, Shl(s[0] % 128, bitpos) % 0x1_0000_0000, 32); }
    }
    if s[0] < 128 {
    } else {
      DecVarint32FromBound(s[1..], (bitpos + 7) % 256, r2);
    }
  }

  /** An accepted 32-bit varint ends with the first byte without the continuation bit. */
  lemma {:induction false} DecVarint32FromEnds(s: bytes, bitpos: nat, result: nat)
    requires DecVarint32From(s, bitpos, result).Ok?
    ensures VarintLen(s) > 0 && DecVarint32From(s, bitpos, result).rest == s[VarintLen(s)..]
  {
    if s[0] < 128 {
    } else {
      var result' := if bitpos >= 32 then result else OrShifted(result, s[0] % 128, bitpos);
      DecVarint32FromEnds(s[1..], (bitpos + 7) % 256, result');
    }
  }

  lemma DecVarint32Ends(s: bytes)
    requires DecVarint32(s).Ok?
    ensures VarintLen(s) > 0 && DecVarint32(s).rest == s[VarintLen(s)..]
  {
    DecVarint32Starts(s);
    DecVarint32FromEnds(s, 0, 0);
  }

  lemma Pow2Of32()
    ensures Pow2(32) == 0x1_0000_0000
  {
    DigitIsShift(0, 4);
    Pow128Values();
    assert Pow2(30) == 4 * Pow2(28);
  }

  /** The result of the 32-bit decoder fits a uint32_t. */
  lemma DecVarint32Bound(s: bytes)
    requires DecVarint32(s).Ok?
    ensures DecVarint32(s).value < 0x1_0000_0000
  {
    DecVarint32Starts(s);
    DecVarint32FromBound(s, 0, 0);
  }

  lemma OrSmall(acc: nat, d: nat, n: nat)
    requires acc < Pow2(n) && Shl(d, n) < 0x1_0000_0000
    ensures OrShifted(acc, d, n) == acc + Shl(d, n)
  {
    hide Pow2, Shl, BitOr;
    DisjointOr(acc, d, n);
  }

  /** Adding the k-th digit, for the digits that reach a 32-bit word. */
  lemma OrDigit32(acc: nat, d: nat, k: nat)
    requires k <= 4 && acc < Pow128(k) && d < 128
    ensures OrShifted(acc, d, 7 * k) == (acc + Digit(d, k)) % 0x1_0000_0000
    ensures k < 4 ==> acc + Digit(d, k) < Pow128(k + 1) <= 0x1000_0000
  {
    hide *;
    DigitIsShift(d, k);
    if k < 4 {
      DigitBound(d, k);
      SmallPower(k + 1);
      OrSmall(acc, d, 7 * k);
    } else {
      OrFifthDigit(acc, d);
    }
  }

  lemma OrFifthDigit(acc: nat, d: nat)
    requires acc < Pow128(4) && d < 128
    ensures OrShifted(acc, d, 28) == (acc + Digit(d, 4)) % 0x1_0000_0000
  {
    hide Pow2, Shl, BitOr, Digit, Pow128;
    Pow128Values();
    TopDigit(acc, d);
    DigitIsShift(d, 4);
    DigitIsShift(d % 16, 4);
    DisjointOr(acc, d % 16, 28);
  }

  lemma {:induction false} SmallPower(k: nat)
    requires k <= 4
    ensures Pow128(k) <= 0x1000_0000
    decreases 4 - k
  {
    if k < 4 { SmallPower(k + 1); } else { Pow128Values(); }
  }

  lemma FourthDigit(d: nat)
    ensures Digit(d, 4) == 0x1000_0000 * d && Digit(d, 5) == 0x8_0000_0000 * d
  {
    assert Digit(d, 1) == 128 * d;
    assert Digit(d, 3) == 0x4000 * Digit(d, 1);
  }

  /** Only the low four bits of the fifth byte reach a 32-bit word. */
  lemma TopDigit(acc: nat, d: nat)
    requires acc < 0x1000_0000
    ensures Digit(d, 4) % 0x1_0000_0000 == Digit(d % 16, 4) < 0x1_0000_0000
    ensures (acc + Digit(d, 4)) % 0x1_0000_0000 == acc + Digit(d % 16, 4)
  {
    FourthDigit(d);
    FourthDigit(d % 16);
    assert Digit(d, 4) == (d / 16) * 0x1_0000_0000 + Digit(d % 16, 4);
  }

  lemma {:induction false} DigitAbove(d: nat, k: nat)
    requires k >= 5
    ensures Digit(d, k) == 0x8_0000_0000 * Digit(d, k - 5)
  {
    if k == 5 { FourthDigit(d); } else { DigitAbove(d, k - 1); }
  }

  /** The digits from the sixth on do not reach a 32-bit word. */
  lemma HighDigit(d: nat, k: nat)
    requires k >= 5
    ensures Digit(d, k) % 0x1_0000_0000 == 0
  {
    hide Digit;
    DigitAbove(d, k);
    MultipleOf32(8 * Digit(d, k - 5));
  }

  lemma MultipleOf32(x: nat)
    ensures (0x1_0000_0000 * x) % 0x1_0000_0000 == 0
  {
  }

  /** The first digit of a varint, and the others. */
  lemma VarintHead(s: bytes)
    requires VarintLen(s) > 0
    ensures var n := VarintLen(s);
      if s[0] < 128 then n == 1 && Base128(s[..n]) == s[0] % 128
      else
        && VarintLen(s[1..]) == n - 1 > 0
        && Base128(s[..n]) == s[0] % 128 + 128 * Base128(s[1..][..n - 1])
        && s[1..][n - 1..] == s[n..]
  {
    assert s[..VarintLen(s)][1..] == s[1..][..VarintLen(s) - 1];
  }

  /** From digit k on, both widths read the same digits: the 32-bit word is the number modulo 2^32. */
  lemma {:induction false} NarrowAgrees(s: bytes, k: nat, acc: nat)
    requires k <= 9 && acc < 0x1_0000_0000 && (k <= 4 ==> acc < Pow128(k))
    requires 0 < VarintLen(s) <= 10 - k
    requires DecVarint32From(s, 7 * k, acc).Ok?
    ensures var n := VarintLen(s);
      DecVarint32From(s, 7 * k, acc) == Ok((acc + Digit(Base128(s[..n]), k)) % 0x1_0000_0000, s[n..])
    decreases 9 - k
  {
    hide OrShifted, Digit, Pow128, DecVarint32From, Base128, VarintLen;
    DecVarint32Byte(s, 7 * k, acc);
    VarintHead(s);
    var n := VarintLen(s);
    var d := s[0] % 128;
    var acc' := if 7 * k >= 32 then acc else OrShifted(acc, d, 7 * k);
    assert acc' == (acc + Digit(d, k)) % 0x1_0000_0000 && (k < 4 ==>
      acc' < Pow128(k + 1)) by { NarrowDigit(acc, d, k); }
    if s[0] < 128 {
    } else {
      var high := Base128(s[1..][..n - 1]);
      DigitSum(d, high, k);
      NarrowAgrees(s[1..], k + 1, acc');
      ModSum(acc + Digit(d, k), Digit(high, k + 1));
    }
  }

  /** What the k-th digit does to a 32-bit word. */
  lemma NarrowDigit(acc: nat, d: nat, k: nat)
    requires acc < 0x1_0000_0000 && (k <= 4 ==> acc < Pow128(k)) && d < 128
    ensures var acc' := if 7 * k >= 32 then acc else OrShifted(acc, d, 7 * k);
      acc' == (acc + Digit(d, k)) % 0x1_0000_0000 && (k < 4 ==> acc' < Pow128(k + 1))
  {
    hide OrShifted, Digit, Pow128;
    if k <= 4 {
      OrDigit32(acc, d, k);
    } else {
      HighDigit(d, k);
      ModSum(Digit(d, k), acc);
    }
  }

  lemma ModSum(x: nat, y: nat)
    ensures (x % 0x1_0000_0000 + y) % 0x1_0000_0000 == (x + y) % 0x1_0000_0000
  {
  }

  /** When both decoders accept the same bytes they consume the same length, and the narrow result is
      the wide one modulo 2^32. */
  lemma NarrowIsWideModulo(s: bytes)
    requires DecVarint32(s).Ok? && DecVarint64(s).Ok?
    ensures DecVarint32(s) == Ok(DecVarint64(s).value % 0x1_0000_0000, DecVarint64(s).rest)
  {
    hide OrShifted, DecVarint32, DecVarint32From, Base128, VarintLen;
    DecVarint32Starts(s);
    NarrowAgrees(s, 0, 0);
    LowHalf(Base128(s[..VarintLen(s)]));
  }

  lemma LowHalf(x: nat)
    ensures x % 0x1_0000_0000_0000_0000 % 0x1_0000_0000 == x % 0x1_0000_0000
  {
    var q := x / 0x1_0000_0000_0000_0000;
    assert x == 0x1_0000_0000 * (0x1_0000_0000 * q) + x % 0x1_0000_0000_0000_0000;
  }

  /** Digits 5 to 9 of a number, as the 32-bit decoder wants them: all zero or all one up to bit 63. */
  predicate SignDigits(w: nat, k: nat)
    requires k <= 9
    decreases 9 - k
  {
    if k == 9 then w == 1
    else (w % 128 == 0 || w % 128 == 127) && SignDigits(w / 128, k + 1)
  }

  /** The 64-bit values whose canonical encoding the 32-bit decoder accepts: those below 2^32, and
      those whose bit 31 is set and whose seven-bit groups above bit 35 look like a sign extension. */
  predicate FitsNarrow(v: nat)
  {
    v < 0x1_0000_0000 || (v / 0x8000_0000 % 2 == 1 && SignDigits(v / Pow128(5), 5))
  }

  lemma {:induction false} NarrowTail(w: nat, k: nat, acc: nat, t: bytes)
    requires 5 <= k <= 9 && 0 < w && Digit(w, k) < 0x1_0000_0000_0000_0000 && acc < 0x1_0000_0000
    ensures DecVarint32From(EncVarint(w) + t, 7 * k, acc).Ok? <==> acc >= 0x8000_0000 && SignDigits(w, k)
    decreases 9 - k
  {
    hide OrShifted, Digit, Pow128;
    var s := EncVarint(w) + t;
    if k == 9 {
      LastDigit(w);
      assert s[0] == 1;
    } else if w < 128 {
      assert s[0] == w;
      SmallTail(w, k);
    } else {
      assert s[0] == w % 128 + 128;
      assert s[1..] == EncVarint(w / 128) + t;
      DigitSum(w % 128, w / 128, k);
      NarrowTail(w / 128, k + 1, acc, t);
    }
  }

  /** Only bit 63 is left for the tenth digit of a 64-bit value. */
  lemma LastDigit(w: nat)
    requires 0 < w && Digit(w, 9) < 0x1_0000_0000_0000_0000
    ensures w == 1
  {
    TenthDigit(w);
  }

  lemma {:induction false} SmallTail(w: nat, k: nat)
    requires 5 <= k < 9 && w < 128
    ensures !SignDigits(w, k)
  {
    assert w / 128 == 0;
    ZeroTail(k + 1);
  }

  lemma {:induction false} ZeroTail(k: nat)
    requires k <= 9
    ensures !SignDigits(0, k)
    decreases 9 - k
  {
    if k == 9 {
    } else {
      ZeroTail(k + 1);
    }
  }

  lemma NarrowHeadByte(v: nat, k: nat, acc: nat, t: bytes)
    requires k < 4
    ensures DecVarint32From(EncVarint(v) + t, 7 * k, acc) ==
      if v < 128 then Ok(OrShifted(acc, v % 128, 7 * k), t)
      else DecVarint32From(EncVarint(v / 128) + t, 7 * (k + 1), OrShifted(acc, v % 128, 7 * k))
  {
    hide OrShifted;
    var s := EncVarint(v) + t;
    assert s[0] % 128 == v % 128;
    assert s[1..] == if v < 128 then t else EncVarint(v / 128) + t;
  }

  lemma {:induction false} NarrowHead(v: nat, k: nat, acc: nat, t: bytes)
    requires k <= 4 && acc < Pow128(k) && acc + Digit(v, k) < 0x1_0000_0000_0000_0000 && (k > 0 ==> v > 0)
    ensures DecVarint32From(EncVarint(v) + t, 7 * k, acc).Ok? <==> FitsNarrow(acc + Digit(v, k))
    decreases 4 - k
  {
    hide OrShifted, Digit, Pow128, FitsNarrow, DecVarint32From, EncVarint;
    var d := v % 128;
    OrDigit32(acc, d, k);
    if k == 4 {
      SmallPower(4);
      NarrowFifth(v, acc, t);
    } else if v < 128 {
      NarrowHeadByte(v, k, acc, t);
      assert FitsNarrow(acc + Digit(v, k)) by { FitsSmall(acc + Digit(v, k)); }
    } else {
      NarrowHeadByte(v, k, acc, t);
      DigitSum(d, v / 128, k);
      NarrowHead(v / 128, k + 1, acc + Digit(d, k), t);
    }
  }

  lemma FitsSmall(x: nat)
    requires x < 0x1_0000_0000
    ensures FitsNarrow(x)
  {
  }

  /** The fifth byte: bits 28 to 31 are kept, and what is above is left to the remaining bytes. */
  lemma NarrowFifth(v: nat, acc: nat, t: bytes)
    requires v > 0 && acc < Pow128(4) && acc + Digit(v, 4) < 0x1_0000_0000_0000_0000
    ensures DecVarint32From(EncVarint(v) + t, 28, acc).Ok? <==> FitsNarrow(acc + Digit(v, 4))
  {
    hide OrShifted, Digit, Pow128, FitsNarrow, DecVarint32From;
    var d, w := v % 128, v / 128;
    OrDigit32(acc, d, 4);
    NarrowSplit(acc, d, w);
    DigitSum(d, w, 4);
    if v < 128 {
      NarrowFifthLast(v, acc, t);
    } else {
      NarrowFifthMore(v, acc, t);
      NarrowTail(w, 5, (acc + Digit(d, 4)) % 0x1_0000_0000, t);
    }
  }

  lemma NarrowFifthLast(v: nat, acc: nat, t: bytes)
    requires v < 128
    ensures DecVarint32From(EncVarint(v) + t, 28, acc).Ok? <==> v < 16
  {
    hide OrShifted;
    var s := EncVarint(v) + t;
    assert s[0] == v;
  }

  lemma NarrowFifthMore(v: nat, acc: nat, t: bytes)
    requires v >= 128
    ensures DecVarint32From(EncVarint(v) + t, 28, acc)
         == DecVarint32From(EncVarint(v / 128) + t, 35, OrShifted(acc, v % 128, 28))
  {
    hide OrShifted;
    var s := EncVarint(v) + t;
    assert s[0] == v % 128 + 128;
    assert s[1..] == EncVarint(v / 128) + t;
  }

  /** A value as its low four digits, its fifth digit, and the rest. */
  lemma NarrowSplit(acc: nat, d: nat, w: nat)
    requires acc < Pow128(4) && d < 128
    ensures var x := acc + Digit(d, 4) + Digit(w, 5);
      FitsNarrow(x) <==>
      if w == 0 then d < 16 else (acc + Digit(d, 4)) % 0x1_0000_0000 >= 0x8000_0000 && SignDigits(w, 5)
  {
    hide Digit, Pow128, SignDigits;
    Pow128Values();
    FourthDigit(d);
    FourthDigit(w);
    var x := acc + Digit(d, 4) + Digit(w, 5);
    assert x / Pow128(5) == w;
    Bit31(acc + Digit(d, 4), w);
    if w == 0 { ZeroTail(5); }
  }

  lemma Bit31(y: nat, w: nat)
    ensures (y + 0x8_0000_0000 * w) / 0x8000_0000 % 2 == 1 <==> y % 0x1_0000_0000 >= 0x8000_0000
  {
    var q, r := y / 0x1_0000_0000, y % 0x1_0000_0000;
    assert y + 0x8_0000_0000 * w == 0x8000_0000 * (2 * q + 16 * w) + r;
    DivideBy31(2 * q + 16 * w, r);
    EvenPlus(q + 8 * w, r);
  }

  lemma DivideBy31(z: nat, r: nat)
    requires r < 0x1_0000_0000
    ensures (0x8000_0000 * z + r) / 0x8000_0000 == z + if r >= 0x8000_0000 then 1 else 0
  {
  }

  lemma EvenPlus(h: nat, r: nat)
    ensures (2 * h + if r >= 0x8000_0000 then 1 else 0) % 2 == 1 <==> r >= 0x8000_0000
  {
  }

  /** Exactly which canonical encodings the 32-bit decoder accepts. */
  lemma NarrowAcceptsExactly(v: nat, t: bytes)
    requires v < 0x1_0000_0000_0000_0000
    ensures DecVarint32(EncVarint(v) + t).Ok? <==> FitsNarrow(v)
    ensures FitsNarrow(v) ==> DecVarint32(EncVarint(v) + t) == Ok(v % 0x1_0000_0000, t)
  {
    var s := EncVarint(v) + t;
    DecVarint32Starts(s);
    NarrowHead(v, 0, 0, t);
    VarintRoundTrip(v, t);
    if FitsNarrow(v) { NarrowIsWideModulo(s); }
  }

  /** In particular, lengths and keys come back. */
  lemma NarrowSmall(v: nat, t: bytes)
    requires v < 0x1_0000_0000
    ensures DecVarint32(EncVarint(v) + t) == Ok(v, t)
  {
    hide DecVarint32, EncVarint;
    NarrowAcceptsExactly(v, t);
  }

  /** The sign extension of a negative int32 is accepted and gives back its 32 bits. */
  lemma NarrowAcceptsNegative(v: nat, t: bytes)
    requires 0x1_0000_0000_0000_0000 - 0x8000_0000 <= v < 0x1_0000_0000_0000_0000
    ensures DecVarint32(EncVarint(v) + t) == Ok(v - (0x1_0000_0000_0000_0000 - 0x1_0000_0000), t)
  {
    hide DecVarint32, EncVarint;
    Pow128Values();
    var w := v / Pow128(5);
    assert w == 0x1FFF_FFFF;
    assert SignDigits(1, 9);
    assert SignDigits(w / 128 / 128 / 128, 8);
    assert SignDigits(w / 128 / 128, 7);
    assert SignDigits(w / 128, 6);
    NarrowAcceptsExactly(v, t);
  }

  /** A canonical encoding of five to nine bytes is accepted only for values below 2^32. */
  lemma NarrowRejectsWide(v: nat, t: bytes)
    requires 0x1_0000_0000 <= v < 0x8000_0000_0000_0000
    ensures DecVarint32(EncVarint(v) + t).Fail?
  {
    Pow128Values();
    SignTop(v / Pow128(5), 5);
    assert Pow128(4) * Pow128(5) == 0x8000_0000_0000_0000;
    NarrowAcceptsExactly(v, t);
  }

  lemma {:induction false} SignTop(w: nat, k: nat)
    requires k <= 9
    ensures SignDigits(w, k) ==> w >= Pow128(9 - k)
    decreases 9 - k
  {
    if k == 9 {
    } else {
      SignTop(w / 128, k + 1);
      assert Pow128(9 - k) == 128 * Pow128(8 - k);
    }
  }

  // ------------------------------------------------------------------ zig-zag

  /** The C cast of an int64_t to uint64_t. */
  function ToU64(v: int): (r: nat)
    ensures r < 0x1_0000_0000_0000_0000
  {
    v % 0x1_0000_0000_0000_0000
  }

  /** The integer widths pb_enc_varint and pb_dec_varint know; others are "invalid data_size". */
  predicate LegalSize(size: nat) {
    size == 1 || size == 2 || size == 4 || size == 8
  }

  /** Half the number of values of an integer of `size` bytes. */
  function Half(size: nat): (m: nat)
    ensures 0 < m <= 0x8000_0000_0000_0000
  {
    match size
    case 1 => 0x80
    case 2 => 0x8000
    case 4 => 0x8000_0000
    case _ => 0x8000_0000_0000_0000
  }

  predicate InSigned(size: nat, v: int) {
    0 - Half(size) <= v < Half(size)
  }

  predicate InUnsigned(size: nat, v: int) {
    0 <= v < 2 * Half(size)
  }

  /** The C cast to a signed integer of `size` bytes. */
  function Wrap(size: nat, v: int): (r: int)
    ensures InSigned(size, r)
    ensures InSigned(size, v) ==> r == v
  {
    match size
    case 1 => (v + 0x80) % 0x100 - 0x80
    case 2 => (v + 0x8000) % 0x1_0000 - 0x8000
    case 4 => (v + 0x8000_0000) % 0x1_0000_0000 - 0x8000_0000
    case _ => (v + 0x8000_0000_0000_0000) % 0x1_0000_0000_0000_0000 - 0x8000_0000_0000_0000
  }

  /** The C cast to an unsigned integer of `size` bytes. */
  function Truncate(size: nat, v: nat): (r: nat)
    ensures InUnsigned(size, r)
    ensures InUnsigned(size, v) ==> r == v
  {
    match size
    case 1 => v % 0x100
    case 2 => v % 0x1_0000
    case 4 => v % 0x1_0000_0000
    case _ => v % 0x1_0000_0000_0000_0000
  }

  /** The number pb_encode_svarint passes to the varint encoder, with C's shift and complement. */
  function ZigZag(v: int): (r: nat)
    requires -0x8000_0000_0000_0000 <= v < 0x8000_0000_0000_0000
    ensures r < 0x1_0000_0000_0000_0000
  {
    var shifted := (2 * ToU64(v)) % 0x1_0000_0000_0000_0000;
    if v < 0 then 0x1_0000_0000_0000_0000 - 1 - shifted else shifted
  }

  /** The number pb_decode_svarint stores for a decoded varint. */
  function UnZigZag(n: nat): (r: int)
    requires n < 0x1_0000_0000_0000_0000
    ensures -0x8000_0000_0000_0000 <= r < 0x8000_0000_0000_0000
  {
    if n % 2 == 1 then Wrap(8, 0x1_0000_0000_0000_0000 - 1 - n / 2) else Wrap(8, n / 2)
  }

  /** Zig-zag is a bijection between int64 and uint64 that keeps small magnitudes small. */
  lemma ZigZagBijection(v: int, n: nat)
    requires -0x8000_0000_0000_0000 <= v < 0x8000_0000_0000_0000 && n < 0x1_0000_0000_0000_0000
    ensures UnZigZag(ZigZag(v)) == v && ZigZag(UnZigZag(n)) == n
    ensures ZigZag(v) == if v < 0 then -2 * v - 1 else 2 * v
  {
    ZigZagFormula(v);
    UnZigZagFormula(ZigZag(v));
    UnZigZagFormula(n);
    ZigZagFormula(UnZigZag(n));
  }

  lemma ZigZagFormula(v: int)
    requires -0x8000_0000_0000_0000 <= v < 0x8000_0000_0000_0000
    ensures ZigZag(v) == if v < 0 then -2 * v - 1 else 2 * v
  {
    assert ToU64(v) == if v < 0 then v + 0x1_0000_0000_0000_0000 else v;
  }

  lemma UnZigZagFormula(n: nat)
    requires n < 0x1_0000_0000_0000_0000
    ensures UnZigZag(n) == if n % 2 == 1 then -(n / 2) - 1 else n / 2
  {
  }

  // ------------------------------------------------------------------ fixed-size numbers

  /** `n` bytes of `v`, least significant first. */
  function LittleEndian(v: nat, n: nat): (s: bytes)
    ensures |s| == n
  {
    if n == 0 then [] else [v % 256] + LittleEndian(v / 256, n - 1)
  }

  function FromLittleEndian(s: bytes): nat {
    if s == [] then 0 else s[0] + 256 * FromLittleEndian(s[1..])
  }

  function Pow256(n: nat): (r: nat)
    ensures r > 0
  {
    if n == 0 then 1 else 256 * Pow256(n - 1)
  }

  lemma {:induction false} FixedRoundTrip(v: nat, n: nat)
    requires v < Pow256(n)
    ensures FromLittleEndian(LittleEndian(v, n)) == v
  {
    if n == 0 {
    } else {
      FixedRoundTrip(v / 256, n - 1);
      assert LittleEndian(v, n)[1..] == LittleEndian(v / 256, n - 1);
    }
  }

  lemma {:induction false} FixedBound(s: bytes)
    ensures FromLittleEndian(s) < Pow256(|s|)
  {
    if s == [] {
    } else {
      FixedBound(s[1..]);
    }
  }

  lemma Pow256Values()
    ensures Pow256(1) == 0x100 && Pow256(2) == 0x1_0000 && Pow256(4) == 0x1_0000_0000
      && Pow256(8) == 0x1_0000_0000_0000_0000
  {
    assert Pow256(2) == 256 * Pow256(1);
    assert Pow256(4) == 256 * 256 * Pow256(2);
    assert Pow256(6) == 256 * 256 * Pow256(4);
    assert Pow256(8) == 256 * 256 * Pow256(6);
  }

  lemma ByteShift(x: nat, n: nat)
    ensures Shl(x, n + 8) == 256 * Shl(x, n) && Pow2(n + 8) == 256 * Pow2(n) && Shr(x, n + 8) == Shr(x / 256, n)
  {
    assert Shl(x, n + 2) == 4 * Shl(x, n) && Pow2(n + 2) == 4 * Pow2(n);
    assert Shl(x, n + 4) == 16 * Shl(x, n) && Pow2(n + 4) == 16 * Pow2(n);
    assert Shl(x, n + 6) == 64 * Shl(x, n) && Pow2(n + 6) == 64 * Pow2(n);
    var y := x / 2 / 2 / 2 / 2;
    assert Shr(x, n + 6) == Shr(x / 2 / 2, n + 4);
    assert Shr(x, n + 8) == Shr(x / 2 / 2, n + 6) == Shr(y, n + 4);
    assert Shr(y, n + 4) == Shr(y / 2 / 2, n + 2) == Shr(y / 2 / 2 / 2 / 2, n);
  }

  /** One more byte of a little-endian number, and its size in bits. */
  lemma {:induction false} FromLittleEndianSnoc(s: bytes, b: byte)
    ensures FromLittleEndian(s + [b]) == FromLittleEndian(s) + Shl(b, 8 * |s|)
    ensures FromLittleEndian(s) < Pow2(8 * |s|)
  {
    if s == [] {
      assert FromLittleEndian([b]) == b + 256 * FromLittleEndian([b][1..]);
    } else {
      assert (s + [b])[1..] == s[1..] + [b];
      FromLittleEndianSnoc(s[1..], b);
      ByteShift(b, 8 * |s| - 8);
    }
  }

  /** The i-th byte of a little-endian number: `(v >> 8 * i) & 0xFF`. */
  lemma {:induction false} LittleEndianAt(v: nat, n: nat, i: nat)
    requires i < n
    ensures LittleEndian(v, n)[i] == Shr(v, 8 * i) % 256
  {
    if i == 0 {
    } else {
      LittleEndianAt(v / 256, n - 1, i - 1);
      ByteShift(v, 8 * i - 8);
    }
  }

  /** What pb_decode_fixed32 (n = 4) and pb_decode_fixed64 (n = 8) accept and return. */
  function DecFixed(n: nat, s: bytes): (r: Parsed<nat>)
    ensures r.Ok? ==> |r.rest| + n == |s|
  {
    if |s| < n then Fail else Ok(FromLittleEndian(s[..n]), s[n..])
  }

  // ------------------------------------------------------------------ field widths

  /** What pb_enc_varint writes: the value sign-extended to 64 bits. */
  function EncSigned(size: nat, v: int): Option<bytes> {
    if LegalSize(size) then Some(EncVarint(ToU64(v))) else None
  }

  function EncUnsigned(size: nat, v: nat): Option<bytes> {
    if LegalSize(size) then Some(EncVarint(v)) else None
  }

  function EncZigZag(size: nat, v: int): Option<bytes>
    requires -0x8000_0000_0000_0000 <= v < 0x8000_0000_0000_0000
  {
    if LegalSize(size) then Some(EncVarint(ZigZag(v))) else None
  }

  /** What pb_dec_varint stores: the low 32 bits, sign-extended, for every width but 8. */
  function DecSigned(size: nat, s: bytes): (r: Parsed<int>)
    ensures r.Ok? ==> |r.rest| < |s| && LegalSize(size) && InSigned(size, r.value)
  {
    var (v, rest) :- DecVarint64(s);
    var svalue := if size == 8 then Wrap(8, v) else Wrap(4, v);
    if !LegalSize(size) || Wrap(size, svalue) != svalue then Fail else Ok(svalue, rest)
  }

  function DecUnsigned(size: nat, s: bytes): (r: Parsed<nat>)
    ensures r.Ok? ==> |r.rest| < |s| && LegalSize(size) && InUnsigned(size, r.value)
  {
    var (v, rest) :- DecVarint64(s);
    if !LegalSize(size) || Truncate(size, v) != v then Fail else Ok(v, rest)
  }

  function DecZigZag(size: nat, s: bytes): (r: Parsed<int>)
    ensures r.Ok? ==> |r.rest| < |s| && LegalSize(size) && InSigned(size, r.value)
  {
    var (n, rest) :- DecVarint64(s);
    var v := UnZigZag(n);
    if !LegalSize(size) || Wrap(size, v) != v then Fail else Ok(v, rest)
  }

  /** Each integer kind comes back from its own encoding at every legal width, and a reader whose field is
      wider gets the same number. */
  lemma WidthRoundTrip(size: nat, wider: nat, v: int, u: nat, t: bytes)
    requires LegalSize(size) && LegalSize(wider) && size <= wider && InSigned(size, v) && InUnsigned(size, u)
    ensures EncSigned(size, v).Some? && DecSigned(wider, EncSigned(size, v).value + t) == Ok(v, t)
    ensures EncUnsigned(size, u).Some? && DecUnsigned(wider, EncUnsigned(size, u).value + t) == Ok(u, t)
    ensures EncZigZag(size, v).Some? && DecZigZag(wider, EncZigZag(size, v).value + t) == Ok(v, t)
  {
    hide DecVarint64, EncVarint;
    VarintRoundTrip(ToU64(v), t);
    VarintRoundTrip(u, t);
    VarintRoundTrip(ZigZag(v), t);
    ZigZagBijection(v, 0);
    WrapOfU64(wider, v);
  }

  /** A negative number takes ten bytes at every width, because it is sign-extended to 64 bits. */
  lemma NegativeTakesTen(size: nat, v: int)
    requires LegalSize(size) && InSigned(size, v) && v < 0
    ensures EncSigned(size, v).Some? && |EncSigned(size, v).value| == 10
  {
    hide EncVarint;
    assert ToU64(v) == v + 0x1_0000_0000_0000_0000;
    NinthPower();
    EncVarintLength(ToU64(v), 9);
    VarintRoundTrip(ToU64(v), []);
  }

  /** No varint with the same digits is shorter than what the three integer encoders write. */
  lemma WidthShortest(size: nat, v: int, u: nat, s: bytes)
    requires LegalSize(size) && InSigned(size, v) && InUnsigned(size, u) && s != [] && VarintLen(s) == |s|
    ensures Base128(s) == Base128(EncSigned(size, v).value) ==> |EncSigned(size, v).value| <= |s|
    ensures Base128(s) == Base128(EncUnsigned(size, u).value) ==> |EncUnsigned(size, u).value| <= |s|
    ensures Base128(s) == Base128(EncZigZag(size, v).value) ==> |EncZigZag(size, v).value| <= |s|
  {
    hide EncVarint, VarintLen, Base128;
    VarintMinimal(s);
    EncVarintDigits(ToU64(v), []);
    EncVarintDigits(u, []);
    EncVarintDigits(ZigZag(v), []);
  }

  lemma WrapOfU64(size: nat, v: int)
    requires LegalSize(size) && InSigned(size, v)
    ensures Wrap(8, ToU64(v)) == v
    ensures size != 8 ==> Wrap(4, ToU64(v)) == v
  {
    assert ToU64(v) == if v < 0 then v + 0x1_0000_0000_0000_0000 else v;
  }

  /** The decoders reject exactly the values that do not fit the field: unsigned and zig-zag by value,
      signed by the value the low 32 bits stand for. */
  lemma WidthRejects(size: nat, n: nat, t: bytes)
    requires LegalSize(size) && n < 0x1_0000_0000_0000_0000
    ensures DecUnsigned(size, EncVarint(n) + t).Ok? <==> InUnsigned(size, n)
    ensures DecZigZag(size, EncVarint(n) + t).Ok? <==> InSigned(size, UnZigZag(n))
    ensures var low := if size == 8 then Wrap(8, n) else Wrap(4, n);
      DecSigned(size, EncVarint(n) + t) == if InSigned(size, low) then Ok(low, t) else Fail
  {
    hide DecVarint64, EncVarint;
    VarintRoundTrip(n, t);
  }
}
