/** Address prefixes: the word-wise comparison, and the `root`, `match` and `exact` route selectors. */
module Prefixes {
  import opened BitWords

  /** The words of an address as they lie in memory, in network byte order. */
  type Address = seq<bv32>

  /** Bit `i` of an address, counted from its first. */
  predicate AddressBit(a: Address, i: nat)
    requires i < 32 * |a|
  {
    Bit(Swap(a[i / 32]), i % 32)
  }

  /** The first `bits` bits agree. */
  predicate Agree(a: Address, b: Address, bits: nat)
    requires bits <= 32 * |a| && |a| == |b|
  {
    forall i :: 0 <= i < bits ==> AddressBit(a, i) == AddressBit(b, i)
  }

  /** `inet_addr_match`: whole words by `memcmp`, the rest of the last word under a mask. */
  function AddressMatch(a: Address, b: Address, bits: nat): int
    requires bits <= 32 * |a| && |a| == |b|
  {
    var words, rest := bits / 32, bits % 32;
    if words != 0 && a[..words] != b[..words] then -1
    else if rest != 0 && And(Xor(a[words], b[words]), Swap(High(rest))) != 0 then 1
    else 0
  }

  /** Two memory words agree in their first `k` bits. */
  lemma WordsAgree(x: bv32, y: bv32, k: nat)
    requires k <= 32
    ensures And(Xor(x, y), Swap(High(k))) == 0 <==> forall i :: 0 <= i < k ==> Bit(Swap(x), i) == Bit(Swap(y), i)
  {
    hide And, Xor, Swap, High, Bit;
    SwapMask(Xor(x, y), High(k));
    SwapXor(x, y);
    MaskedEqual(Swap(x), Swap(y), k);
  }

  lemma WordsEqual(x: bv32, y: bv32)
    ensures x == y <==> forall i :: 0 <= i < 32 ==> Bit(Swap(x), i) == Bit(Swap(y), i)
  {
    if forall i :: 0 <= i < 32 ==> Bit(Swap(x), i) == Bit(Swap(y), i) {
      WordsAgree(x, y, 32);
      assert High(32) == ONES;
      XorZero(x, y);
    }
  }

  lemma XorZero(x: bv32, y: bv32)
    requires And(Xor(x, y), Swap(ONES)) == 0
    ensures x == y
  {}

  /** Bit `32 * w + j` of an address is bit `j` of its word `w`. */
  lemma BitOfWord(a: Address, w: nat, j: nat)
    requires w < |a| && j < 32
    ensures AddressBit(a, 32 * w + j) == Bit(Swap(a[w]), j)
  {
    assert (32 * w + j) / 32 == w && (32 * w + j) % 32 == j;
  }

  /** Agreement on whole words is equality of the words. */
  lemma AgreeWords(a: Address, b: Address, words: nat)
    requires words <= |a| == |b|
    ensures Agree(a, b, 32 * words) <==> a[..words] == b[..words]
  {
    hide Bit, Swap;
    if Agree(a, b, 32 * words) {
      forall w | 0 <= w < words ensures a[w] == b[w] {
        forall j | 0 <= j < 32 ensures Bit(Swap(a[w]), j) == Bit(Swap(b[w]), j) {
          BitOfWord(a, w, j);
          BitOfWord(b, w, j);
          assert AddressBit(a, 32 * w + j) == AddressBit(b, 32 * w + j);
        }
        WordsEqual(a[w], b[w]);
      }
    }
    if a[..words] == b[..words] {
      forall i | 0 <= i < 32 * words ensures AddressBit(a, i) == AddressBit(b, i) {
        assert a[i / 32] == a[..words][i / 32] && b[i / 32] == b[..words][i / 32];
      }
    }
  }

  lemma AgreeSplit(a: Address, b: Address, bits: nat)
    requires bits <= 32 * |a| && |a| == |b| && bits % 32 != 0
    ensures var w := bits / 32;
            Agree(a, b, bits) <==>
            Agree(a, b, 32 * w) && forall j :: 0 <= j < bits % 32 ==> Bit(Swap(a[w]), j) == Bit(Swap(b[w]), j)
  {
    hide Bit, Swap;
    var w, k := bits / 32, bits % 32;
    if Agree(a, b, bits) {
      forall j | 0 <= j < k ensures Bit(Swap(a[w]), j) == Bit(Swap(b[w]), j) {
        BitOfWord(a, w, j);
        BitOfWord(b, w, j);
        assert AddressBit(a, 32 * w + j) == AddressBit(b, 32 * w + j);
      }
    } else if Agree(a, b, 32 * w) {
      var i :| 0 <= i < bits && AddressBit(a, i) != AddressBit(b, i);
      assert i / 32 == w;
    }
  }

  /** The comparison succeeds exactly when the first `bits` bits agree. */
  lemma MatchAgrees(a: Address, b: Address, bits: nat)
    requires bits <= 32 * |a| && |a| == |b|
    ensures AddressMatch(a, b, bits) == 0 <==> Agree(a, b, bits)
  {
    var w, k := bits / 32, bits % 32;
    assert bits == 32 * w + k;
    AgreeWords(a, b, w);
    if k != 0 {
      AgreeSplit(a, b, bits);
      WordsAgree(a[w], b[w], k);
    }
  }

  // --------------------------------------------------------------- selectors

  /** An `inet_prefix`; family 0 means that no prefix was given. */
  datatype Prefix = Prefix(family: nat, bitlen: nat, addr: Address)

  /** The part of a route the prefix selectors read. */
  datatype Route = Route(family: nat, dstLen: nat, dst: Address)

  /** Within one family, addresses have the same number of words and lengths do not exceed them. */
  predicate Comparable(p: Prefix, r: Route) {
    r.dstLen <= 32 * |r.dst| &&
    (p.family == r.family ==> |p.addr| == |r.dst| && p.bitlen <= 32 * |p.addr|)
  }

  /** The destination part of `filter_nlmsg`, with `rdst` from `root` and `mdst` from `match`. */
  predicate Selects(rdst: Prefix, mdst: Prefix, r: Route)
    requires Comparable(rdst, r) && Comparable(mdst, r)
  {
    if rdst.family != 0 && (r.family != rdst.family || rdst.bitlen > r.dstLen) then false
    else if mdst.family != 0 && (r.family != mdst.family || mdst.bitlen < r.dstLen) then false
    else if rdst.family != 0 && AddressMatch(r.dst, rdst.addr, rdst.bitlen) != 0 then false
    else if mdst.family != 0 && AddressMatch(r.dst, mdst.addr, r.dstLen) != 0 then false
    else true
  }

  const UNSET := Prefix(0, 0, [])

  /** Every address under `q/qlen` is under `p/plen`. */
  ghost predicate Inside(q: Address, qlen: nat, p: Address, plen: nat)
    requires |q| == |p| && qlen <= 32 * |q| && plen <= 32 * |p|
  {
    forall x: Address :: |x| == |q| && Agree(x, q, qlen) ==> Agree(x, p, plen)
  }

  /** The word whose first `k` bits are those of `x` and whose others are the opposite of those of `y`. */
  function MixWord(x: bv32, y: bv32, k: nat): bv32
    requires k <= 32
  {
    Swap(Or(And(Swap(x), High(k)), And(Xor(Swap(y), High(32)), Xor(High(k), High(32)))))
  }

  lemma MixWordBit(x: bv32, y: bv32, k: nat, j: nat)
    requires k <= 32 && j < 32
    ensures Bit(Swap(MixWord(x, y, k)), j) == if j < k then Bit(Swap(x), j) else !Bit(Swap(y), j)
  {
    hide And, Or, Xor, Swap, High, Bit;
    var a, b := Swap(x), Swap(y);
    var h, h' := High(k), Xor(High(k), High(32));
    SwapTwice(Or(And(a, h), And(Xor(b, High(32)), h')));
    BitOps(And(a, h), And(Xor(b, High(32)), h'), j);
    BitOps(a, h, j);
    BitOps(Xor(b, High(32)), h', j);
    BitOps(b, High(32), j);
    BitOps(h, High(32), j);
    HighBit(k, j);
    HighBit(32, j);
  }

  /** An address under `q/len` that leaves `p` at bit `len`. */
  lemma Escape(q: Address, p: Address, len: nat) returns (x: Address)
    requires |q| == |p| && len < 32 * |q|
    ensures |x| == |q| && Agree(x, q, len) && AddressBit(x, len) != AddressBit(p, len)
  {
    hide Bit, Swap, MixWord;
    var w, k := len / 32, len % 32;
    x := q[w := MixWord(q[w], p[w], k)];
    forall i | 0 <= i < len ensures AddressBit(x, i) == AddressBit(q, i) {
      if i / 32 == w { MixWordBit(q[w], p[w], k, i % 32); }
    }
    MixWordBit(q[w], p[w], k, k);
  }

  /** One prefix lies inside another exactly when it is at least as long and agrees with it. */
  lemma InsideExact(q: Address, qlen: nat, p: Address, plen: nat)
    requires |q| == |p| && qlen <= 32 * |q| && plen <= 32 * |p|
    ensures Inside(q, qlen, p, plen) <==> plen <= qlen && Agree(q, p, plen)
  {
    hide AddressBit;
    if plen > qlen {
      var x := Escape(q, p, qlen);
      assert !Agree(x, p, plen);
    } else {
      assert Agree(q, q, qlen);
    }
  }

  /** The prefix was not given, or all addresses of the route lie under it. */
  ghost predicate RootHolds(p: Prefix, r: Route)
    requires Comparable(p, r)
  {
    p.family == 0 || (r.family == p.family && Inside(r.dst, r.dstLen, p.addr, p.bitlen))
  }

  /** The prefix was not given, or the route covers every address under it. */
  ghost predicate MatchHolds(p: Prefix, r: Route)
    requires Comparable(p, r)
  {
    p.family == 0 || (r.family == p.family && Inside(p.addr, p.bitlen, r.dst, r.dstLen))
  }

  /** `root P match Q`, with any two prefixes, selects exactly the routes between them. */
  lemma SelectsExact(rdst: Prefix, mdst: Prefix, r: Route)
    requires Comparable(rdst, r) && Comparable(mdst, r)
    ensures Selects(rdst, mdst, r) <==> RootHolds(rdst, r) && MatchHolds(mdst, r)
  {
    hide Inside, Agree, AddressMatch;
    if rdst.family != 0 && r.family == rdst.family {
      InsideExact(r.dst, r.dstLen, rdst.addr, rdst.bitlen);
      if rdst.bitlen <= r.dstLen { MatchAgrees(r.dst, rdst.addr, rdst.bitlen); }
    }
    if mdst.family != 0 && r.family == mdst.family {
      InsideExact(mdst.addr, mdst.bitlen, r.dst, r.dstLen);
      if r.dstLen <= mdst.bitlen {
        MatchAgrees(r.dst, mdst.addr, r.dstLen);
        AgreeSymmetric(r.dst, mdst.addr, r.dstLen);
      }
    }
  }

  lemma AgreeSymmetric(a: Address, b: Address, bits: nat)
    requires bits <= 32 * |a| && |a| == |b|
    ensures Agree(a, b, bits) == Agree(b, a, bits)
  {
  }

  /** `root P` selects exactly the routes whose addresses all lie under P. */
  lemma RootExact(p: Prefix, r: Route)
    requires p.family != 0 && Comparable(p, r) && Comparable(UNSET, r)
    ensures Selects(p, UNSET, r) <==> r.family == p.family && Inside(r.dst, r.dstLen, p.addr, p.bitlen)
  {
    SelectsExact(p, UNSET, r);
  }

  /** `match P` selects exactly the routes that cover every address under P. */
  lemma MatchExact(p: Prefix, r: Route)
    requires p.family != 0 && Comparable(p, r) && Comparable(UNSET, r)
    ensures Selects(UNSET, p, r) <==> r.family == p.family && Inside(p.addr, p.bitlen, r.dst, r.dstLen)
  {
    SelectsExact(UNSET, p, r);
  }

  /** `exact P`, which sets both prefixes, selects exactly the routes covering the same addresses. */
  lemma ExactExact(p: Prefix, r: Route)
    requires p.family != 0 && Comparable(p, r)
    ensures Selects(p, p, r) <==>
            r.family == p.family && Inside(r.dst, r.dstLen, p.addr, p.bitlen) &&
            Inside(p.addr, p.bitlen, r.dst, r.dstLen)
  {
    SelectsExact(p, p, r);
  }

  // ---------------------------------------------------------------- netmasks

  /** The test of `mask2bits` leaves exactly the words of the form 0...01...1. */
  lemma {:induction false} LowBitsOnly(h: bv32) returns (n: nat)
    requires h & (h + 1) == 0
    ensures n <= 32 && h == Low(n)
    decreases h
  {
    if h == 0 {
      n := 0;
    } else {
      HalfOf(h);
      n := LowBitsOnly(h >> 1);
      LowValues();
      n := n + 1;
    }
  }

  lemma HalfOf(h: bv32)
    requires h & (h + 1) == 0 && h != 0
    ensures (h >> 1) & ((h >> 1) + 1) == 0 && h == ((h >> 1) << 1) | 1 && h >> 1 < h && h >> 1 != ONES
  {}

  lemma LowTest(n: nat)
    requires n <= 32
    ensures Low(n) & (Low(n) + 1) == 0
  {
    if n > 0 {
      LowTest(n - 1);
      DoubleTest(Low(n - 1));
    }
  }

  lemma DoubleTest(x: bv32)
    requires x & (x + 1) == 0
    ensures ((x << 1) | 1) & (((x << 1) | 1) + 1) == 0
  {}

  /** The test of `mask2bits` on a mask in host order. */
  predicate IsContiguous(mask: bv32) { var host := mask ^ ONES; host & (host + 1) == 0 }

  lemma ContiguousExact(mask: bv32) returns (n: nat)
    ensures n <= 32
    ensures IsContiguous(mask) ==> mask == Shl(ONES, n)
    ensures !IsContiguous(mask) ==> forall k :: 0 <= k <= 32 ==> mask != High(k)
  {
    n := 0;
    if IsContiguous(mask) {
      n := LowBitsOnly(mask ^ ONES);
      ShlOnes(n);
      XorTwice(mask);
    } else {
      forall k | 0 <= k <= 32 ensures mask != High(k) { HighContiguous(k); }
    }
  }

  lemma HighContiguous(k: nat)
    requires k <= 32
    ensures IsContiguous(High(k))
  {
    ShlOnes(32 - k);
    XorTwice(Low(32 - k));
    LowTest(32 - k);
  }

  lemma XorTwice(x: bv32)
    ensures (x ^ ONES) ^ ONES == x
  {}

  /** `mask2bits`: the length of a contiguous netmask, -1 for any other word. */
  method MaskToBits(netmask: bv32) returns (bits: int)
    ensures bits == -1 || (0 <= bits <= 32 && netmask == Swap(High(bits)))
    ensures bits == -1 ==> forall k :: 0 <= k <= 32 ==> netmask != Swap(High(k))
  {
    hide IsContiguous, Swap, Twice, HasTop;
    var mask := Swap(netmask);
    ghost var n := ContiguousExact(mask);
    SwapTwice(netmask);
    if !IsContiguous(mask) {
      forall k | 0 <= k <= 32 ensures netmask != Swap(High(k)) { SwapTwice(High(k)); }
      return -1;
    }
    bits := 0;
    while mask != 0
      invariant 0 <= bits <= 32 - n && mask == Shl(ONES, n + bits)
      decreases 32 - n - bits
    {
      OnesLeft(n + bits);
      bits := bits + 1;
      mask := Twice(mask);
    }
    OnesLeft(n + bits);
    assert High(32 - n) == Shl(ONES, n);
  }

  lemma OnesLeft(n: nat)
    ensures Shl(ONES, n) == 0 <==> n >= 32
  {
    OnesTop(n);
    if n >= 32 { ShlOut(ONES, n); }
  }
}
