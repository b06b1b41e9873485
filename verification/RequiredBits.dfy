/** The bitmap in which pb_decode_noinit records the required fields it has seen: two words of 32 bits,
    one bit for each of the first 64 required fields of the table. */
module RequiredBits {
  import opened Bits
  import opened Wire
  import opened Descriptor
  import opened DecodeSpec

  /** The j-th required field has been seen. */
  ghost predicate SeenIndex(t: seq<Field>, seen: set<nat>, j: nat) {
    exists i :: i in seen && i < |t| && t[i].htype.Required? && RequiredBefore(t, i) == j
  }

  /** Word `w` holds exactly the bits of the required fields seen. */
  ghost predicate WordFor(t: seq<Field>, seen: set<nat>, w: nat, x: nat) {
    forall b: nat :: TestBit(x, b) <==> b < 32 && SeenIndex(t, seen, 32 * w + b)
  }

  lemma {:induction false} RequiredMonotone(t: seq<Field>, i: nat, j: nat)
    requires i <= j <= |t|
    ensures RequiredBefore(t, i) <= RequiredBefore(t, j)
    ensures i < j && t[i].htype.Required? ==> RequiredBefore(t, i) < RequiredBefore(t, j)
  {
    if i == j {
    } else {
      RequiredMonotone(t, i, j - 1);
    }
  }

  /** The required field with index `j`. */
  lemma {:induction false} RequiredWithIndex(t: seq<Field>, j: nat, n: nat) returns (i: nat)
    requires n <= |t| && j < RequiredBefore(t, n)
    ensures i < n && t[i].htype.Required? && RequiredBefore(t, i) == j
  {
    if RequiredBefore(t, n - 1) == j { i := n - 1; } else { i := RequiredWithIndex(t, j, n - 1); }
  }

  /** Setting the bit of a field records exactly that field. */
  lemma SetBit(t: seq<Field>, seen: set<nat>, w: nat, x: nat, i: nat)
    requires i < |t| && t[i].htype.Required? && WordFor(t, seen, w, x) && RequiredBefore(t, i) / 32 == w
    ensures WordFor(t, seen + {i}, w, BitOr(x, Shl(1, RequiredBefore(t, i) % 32)))
  {
    hide BitOr, TestBit, Shl, RequiredBefore;
    var k := RequiredBefore(t, i);
    var x' := BitOr(x, Shl(1, k % 32));
    assert k == 32 * w + k % 32;
    forall b: nat ensures TestBit(x', b) <==> b < 32 && SeenIndex(t, seen + {i}, 32 * w + b) {
      OrBit(x, Shl(1, k % 32), b);
      ShlOne(k % 32);
      Pow2Bit(k % 32, b);
      SeenAlso(t, seen, i, 32 * w + b);
    }
  }

  lemma SeenAlso(t: seq<Field>, seen: set<nat>, i: nat, j: nat)
    requires i < |t| && t[i].htype.Required?
    ensures SeenIndex(t, seen + {i}, j) <==> SeenIndex(t, seen, j) || j == RequiredBefore(t, i)
  {
    if j == RequiredBefore(t, i) { assert i in seen + {i}; }
    if SeenIndex(t, seen, j) {
      var k :| k in seen && k < |t| && t[k].htype.Required? && RequiredBefore(t, k) == j;
      assert k in seen + {i};
    }
  }

  lemma {:induction false} ShlOne(n: nat)
    ensures Shl(1, n) == Pow2(n)
  {
    if n == 0 {
    } else {
      ShlOne(n - 1);
    }
  }

  /** A field whose bit lies in another word does not change this one, nor does one past the limit. */
  lemma OtherWord(t: seq<Field>, seen: set<nat>, w: nat, x: nat, i: nat)
    requires i < |t| && t[i].htype.Required? && WordFor(t, seen, w, x) && RequiredBefore(t, i) / 32 != w
    ensures WordFor(t, seen + {i}, w, x)
  {
    hide TestBit, RequiredBefore;
    forall b: nat ensures TestBit(x, b) <==> b < 32 && SeenIndex(t, seen + {i}, 32 * w + b) {
      SeenAlso(t, seen, i, 32 * w + b);
    }
  }

  /** The word test of the decoder: the first `k` bits of the word are all there is, and all are set. */
  lemma WordTest(t: seq<Field>, seen: set<nat>, w: nat, x: nat, k: nat)
    requires k <= 32 && WordFor(t, seen, w, x)
    requires k < 32 ==> RequiredBefore(t, |t|) == 32 * w + k
    ensures x == Shr(0xFFFF_FFFF, 32 - k) <==> forall j: nat :: 32 * w <= j < 32 * w + k ==> SeenIndex(t, seen, j)
  {
    hide RequiredBefore, Shr, SeenIndex, Pow2;
    forall b: nat | TestBit(x, b) ensures b < k {
      if k < 32 { SeenBelow(t, seen, 32 * w + b); }
    }
    AllOnes(x, k);
    Pow2Of32();
    ShrOnes(32 - k, k);
    if x == Pow2(k) - 1 {
      forall j: nat | 32 * w <= j < 32 * w + k ensures SeenIndex(t, seen, j) {
        assert TestBit(x, j - 32 * w);
      }
    }
    if forall j: nat :: 32 * w <= j < 32 * w + k ==> SeenIndex(t, seen, j) {
      forall b: nat | b < k ensures TestBit(x, b) {
        assert SeenIndex(t, seen, 32 * w + b);
      }
    }
  }

  lemma SeenBelow(t: seq<Field>, seen: set<nat>, j: nat)
    requires SeenIndex(t, seen, j)
    ensures j < RequiredBefore(t, |t|)
  {
    var i :| i in seen && i < |t| && t[i].htype.Required? && RequiredBefore(t, i) == j;
    RequiredMonotone(t, i, |t|);
  }

  /** All the bits are set exactly when every tracked required field was seen. */
  lemma AllSeen(t: seq<Field>, seen: set<nat>)
    ensures RequiredDone(t, seen) <==>
      forall j: nat :: j < RequiredBefore(t, |t|) && j < PB_MAX_REQUIRED_FIELDS ==> SeenIndex(t, seen, j)
  {
    if RequiredDone(t, seen) {
      forall j: nat | j < RequiredBefore(t, |t|) && j < PB_MAX_REQUIRED_FIELDS ensures SeenIndex(t, seen, j) {
        var i := RequiredWithIndex(t, j, |t|);
      }
    }
    if forall j: nat :: j < RequiredBefore(t, |t|) && j < PB_MAX_REQUIRED_FIELDS ==> SeenIndex(t, seen, j) {
      forall i | 0 <= i < |t| && t[i].htype.Required?
        && RequiredBefore(t, i) < PB_MAX_REQUIRED_FIELDS
        ensures i in seen
      {
        RequiredMonotone(t, i, |t|);
        assert SeenIndex(t, seen, RequiredBefore(t, i));
        var k :| k in seen && k < |t| && t[k].htype.Required? && RequiredBefore(t, k) == RequiredBefore(t, i);
        if k < i { RequiredMonotone(t, k, i); }
        if i < k { RequiredMonotone(t, i, k); }
      }
    }
  }
}
