/** 32-bit words: shifts, byte order, and single bits counted from the most significant. */
module BitWords {

  const ONES: bv32 := 0xffff_ffff

  /** `w << n`. */
  function Shl(w: bv32, n: nat): bv32 { if n == 0 then w else Twice(Shl(w, n - 1)) }

  /** Bit `i`, counted from the most significant. */
  predicate Bit(w: bv32, i: nat) { HasTop(Shl(w, i)) }

  predicate HasTop(w: bv32) { w & 0x8000_0000 != 0 }

  /** `htonl` and `ntohl` on a little-endian machine. */
  function Swap(w: bv32): bv32 {
    (w << 24) | ((w << 8) & 0xff_0000) | ((w >> 8) & 0xff00) | (w >> 24)
  }

  /** The `n` least significant bits. */
  function Low(n: nat): bv32 { if n == 0 then 0 else (Low(n - 1) << 1) | 1 }

  function And(x: bv32, y: bv32): bv32 { x & y }
  function Or(x: bv32, y: bv32): bv32 { x | y }
  function Xor(x: bv32, y: bv32): bv32 { x ^ y }
  function Twice(x: bv32): bv32 { x << 1 }

  lemma SwapTwice(x: bv32)
    ensures Swap(Swap(x)) == x
  {}

  lemma SwapXor(x: bv32, y: bv32)
    ensures Swap(Xor(x, y)) == Xor(Swap(x), Swap(y))
  {}

  /** Testing a stored word against a mask in network order is testing its value against the mask. */
  lemma SwapMask(x: bv32, m: bv32)
    ensures And(x, Swap(m)) == 0 <==> And(Swap(x), m) == 0
  {}

  lemma {:induction false} ShlOps(x: bv32, y: bv32, n: nat)
    ensures Shl(And(x, y), n) == And(Shl(x, n), Shl(y, n))
    ensures Shl(Or(x, y), n) == Or(Shl(x, n), Shl(y, n))
    ensures Shl(Xor(x, y), n) == Xor(Shl(x, n), Shl(y, n))
  {
    hide And, Or, Xor, Twice;
    if n > 0 {
      ShlOps(x, y, n - 1);
      ShiftedAnd(Shl(x, n - 1), Shl(y, n - 1));
      ShiftedOr(Shl(x, n - 1), Shl(y, n - 1));
      ShiftedXor(Shl(x, n - 1), Shl(y, n - 1));
    }
  }

  lemma ShiftedAnd(x: bv32, y: bv32)
    ensures Twice(And(x, y)) == And(Twice(x), Twice(y))
  {}

  lemma ShiftedOr(x: bv32, y: bv32)
    ensures Twice(Or(x, y)) == Or(Twice(x), Twice(y))
  {}

  lemma ShiftedXor(x: bv32, y: bv32)
    ensures Twice(Xor(x, y)) == Xor(Twice(x), Twice(y))
  {}

  lemma {:induction false} ShlAdd(x: bv32, m: nat, n: nat)
    ensures Shl(Shl(x, m), n) == Shl(x, m + n)
  {
    hide Twice;
    if n > 0 { ShlAdd(x, m, n - 1); }
  }

  lemma ShlZero(n: nat)
    ensures Shl(0, n) == 0
  {}

  /** Shifting clears the low bits, and all of them after 32 steps. */
  lemma ShlClears(x: bv32, n: nat)
    ensures Shl(x, n) & Low(n) == 0
  {}

  lemma ShlOut(x: bv32, n: nat)
    requires n >= 32
    ensures Shl(x, n) == 0
  {
    if n == 32 {
      ShlClears(x, 32);
      LowValues();
    } else {
      ShlOut(x, n - 1);
    }
  }

  lemma LowValues()
    ensures Low(31) == 0x7fff_ffff && Low(32) == ONES
  {
    assert Low(2) == 0x3;
    assert Low(4) == 0xf;
    assert Low(6) == 0x3f;
    assert Low(8) == 0xff;
    assert Low(10) == 0x3ff;
    assert Low(12) == 0xfff;
    assert Low(14) == 0x3fff;
    assert Low(16) == 0xffff;
    assert Low(18) == 0x3ffff;
    assert Low(20) == 0xfffff;
    assert Low(22) == 0x3fffff;
    assert Low(24) == 0xffffff;
    assert Low(26) == 0x3ffffff;
    assert Low(28) == 0xfffffff;
    assert Low(30) == 0x3fffffff;
  }

  lemma LowNested(m: nat, n: nat)
    requires m <= n
    ensures Low(m) & Low(n) == Low(m)
  {
    if 0 < m { LowNested(m - 1, n - 1); }
  }

  lemma ShlOnes(n: nat)
    ensures Shl(ONES, n) == Low(n) ^ ONES
  {}

  /** `0xffffffff << n` has its top bit set exactly below 32. */
  lemma OnesTop(n: nat)
    ensures Shl(ONES, n) & 0x8000_0000 != 0 <==> n < 32
  {
    if n < 32 {
      ShlOnes(n);
      LowNested(n, 31);
      LowValues();
    } else {
      ShlOut(ONES, n);
    }
  }

  /** A word without bits is zero. */
  lemma NoBits(w: bv32)
    requires forall i :: 0 <= i < 32 ==> !Bit(w, i)
    ensures w == 0
  {
    NoBitsFrom(w, 0);
  }

  lemma {:induction false} NoBitsFrom(w: bv32, n: nat)
    requires n <= 32 && forall i :: n <= i < 32 ==> !Bit(w, i)
    ensures Shl(w, n) == 0
    decreases 32 - n
  {
    if n == 32 {
      ShlOut(w, 32);
    } else {
      NoBitsFrom(w, n + 1);
      var x := Shl(w, n);
      assert !Bit(w, n) && x << 1 == Shl(w, n + 1);
    }
  }

  /** The mask of the `k` most significant bits, as `inet_addr_match` builds it. */
  function High(k: nat): bv32
    requires k <= 32
  {
    Shl(ONES, 32 - k)
  }

  lemma HighBit(k: nat, i: nat)
    requires k <= 32
    ensures Bit(High(k), i) <==> i < k
  {
    ShlAdd(ONES, 32 - k, i);
    OnesTop(32 - k + i);
  }

  lemma BitOps(x: bv32, y: bv32, i: nat)
    ensures Bit(And(x, y), i) <==> Bit(x, i) && Bit(y, i)
    ensures Bit(Or(x, y), i) <==> Bit(x, i) || Bit(y, i)
    ensures Bit(Xor(x, y), i) <==> Bit(x, i) != Bit(y, i)
  {
    hide And, Or, Xor, HasTop;
    ShlOps(x, y, i);
    TopOps(Shl(x, i), Shl(y, i));
  }

  lemma TopOps(x: bv32, y: bv32)
    ensures HasTop(And(x, y)) <==> HasTop(x) && HasTop(y)
    ensures HasTop(Or(x, y)) <==> HasTop(x) || HasTop(y)
    ensures HasTop(Xor(x, y)) <==> HasTop(x) != HasTop(y)
  {
    hide *;
    TopAnd(x, y);
    TopOr(x, y);
    TopXor(x, y);
  }

  lemma TopAnd(x: bv32, y: bv32)
    ensures HasTop(And(x, y)) <==> HasTop(x) && HasTop(y)
  {}

  lemma TopOr(x: bv32, y: bv32)
    ensures HasTop(Or(x, y)) <==> HasTop(x) || HasTop(y)
  {
    assert (x | y) & 0x8000_0000 == (x & 0x8000_0000) | (y & 0x8000_0000);
    OrZero(x & 0x8000_0000, y & 0x8000_0000);
  }

  lemma OrZero(x: bv32, y: bv32)
    ensures x | y == 0 <==> x == 0 && y == 0
  {}

  lemma TopXor(x: bv32, y: bv32)
    ensures HasTop(Xor(x, y)) <==> HasTop(x) != HasTop(y)
  {}

  lemma DifferBit(x: bv32, y: bv32, k: nat, i: nat)
    requires k <= 32
    ensures Bit(And(Xor(x, y), High(k)), i) <==> i < k && Bit(x, i) != Bit(y, i)
  {
    hide And, Xor, Bit, High;
    BitOps(Xor(x, y), High(k), i);
    BitOps(x, y, i);
    HighBit(k, i);
  }

  /** Two words agree under the mask exactly when their first `k` bits agree. */
  lemma MaskedEqual(x: bv32, y: bv32, k: nat)
    requires k <= 32
    ensures And(Xor(x, y), High(k)) == 0 <==> forall i :: 0 <= i < k ==> Bit(x, i) == Bit(y, i)
  {
    hide And, Xor, Bit, High;
    var z := And(Xor(x, y), High(k));
    if z == 0 {
      forall i | 0 <= i < k ensures Bit(x, i) == Bit(y, i) {
        DifferBit(x, y, k, i);
        ZeroBit(i);
      }
    } else if forall i :: 0 <= i < k ==> Bit(x, i) == Bit(y, i) {
      forall i | 0 <= i < 32 ensures !Bit(z, i) { DifferBit(x, y, k, i); }
      NoBits(z);
    }
  }

  lemma ZeroBit(i: nat)
    ensures !Bit(0, i)
  {
    ShlZero(i);
  }
}
