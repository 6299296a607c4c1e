/** Host chains as operands that outgrow a `char`: for which numbers of hosts the verdict is still right. */
module LongChains {
  import opened Wire
  import opened Bytecode
  import opened SocketFilter
  import opened FilterCompiler

  /** The bytes of `n` blocks with the same condition, and the jumps between them. */
  function Blocks(code: byte, args: seq<byte>, n: nat): seq<byte> { Bytes(ChainOps(code, Copies(args, n))) }

  function Block(code: byte, args: seq<byte>): Op { Op(code, 8 + |args|, args) }

  /** A block with the jump behind it. */
  function Stride(args: seq<byte>): nat { 8 + |args| }

  /** `n` strides. */
  function Times(n: nat, s: nat): nat { if n == 0 then 0 else s + Times(n - 1, s) }

  lemma {:induction false} TimesIs(n: nat, s: nat)
    ensures Times(n, s) == n * s
  {
    if n > 0 {
      TimesIs(n - 1, s);
      assert n * s == (n - 1) * s + s;
    }
  }

  lemma {:induction false} TimesUp(m: nat, n: nat, s: nat)
    requires m <= n
    ensures Times(m, s) <= Times(n, s) && Times(n, s) - Times(m, s) == Times(n - m, s)
  {
    if m > 0 { TimesUp(m - 1, n - 1, s); }
  }

  /** The code starts with a block, and goes on with a jump over all the others and with those. */
  lemma BlocksStep(code: byte, args: seq<byte>, n: nat)
    requires n > 0
    ensures |Blocks(code, args, n)| == Times(n, Stride(args)) - 4
    ensures n == 1 ==> Blocks(code, args, n) == OpBytes(Block(code, args))
    ensures n > 1 ==> Blocks(code, args, n) ==
                      OpBytes(Block(code, args)) + OpBytes(Jump(Times(n - 1, Stride(args)))) + Blocks(code, args, n - 1)
  {
    hide Times, OpBytes;
    var block := Block(code, args);
    BlocksLength(code, args, n);
    var rest := CopiesStep(code, args, n);
    if n == 1 {
      assert [block][1..] == [];
    } else {
      BlocksLength(code, args, n - 1);
      assert [block, Jump(Len(rest) + 4)] + rest == [block] + [Jump(Len(rest) + 4)] + rest;
      assert Bytes([block]) == OpBytes(block) by { assert [block][1..] == []; }
      hide Bytes, ChainOps;
      JumpBytes([block], Len(rest) + 4, rest);
    }
  }

  lemma BlocksLength(code: byte, args: seq<byte>, n: nat)
    requires n > 0
    ensures Len(ChainOps(code, Copies(args, n))) == Times(n, Stride(args)) - 4
  {
    hide ChainOps, Len;
    ChainLength(code, Copies(args, n), |args|);
    TimesIs(n, Stride(args));
  }

  /** Block `i` and the jump behind it. */
  lemma {:induction false} BlockBytes(code: byte, args: seq<byte>, n: nat, i: nat)
    requires i < n
    ensures var w, s, q := Blocks(code, args, n), Stride(args), Times(i, Stride(args));
            |w| == Times(n, s) - 4 && q + s - 4 <= |w| && w[q..q + s - 4] == OpBytes(Block(code, args)) &&
            (i + 1 < n ==> q + s <= |w| && w[q + s - 4..q + s] == OpBytes(Jump(Times(n - 1 - i, s))))
  {
    hide Blocks, OpBytes, Times;
    BlocksStep(code, args, n);
    var w, s := Blocks(code, args, n), Stride(args);
    TimesFacts(i, n, s);
    if i == 0 {
      if n > 1 { FirstBlock(w, OpBytes(Block(code, args)), OpBytes(Jump(Times(n - 1, s))), Blocks(code, args, n - 1)); }
      assert w[..s - 4] == OpBytes(Block(code, args));
    } else {
      BlockBytes(code, args, n - 1, i - 1);
      var v, p := Blocks(code, args, n - 1), Times(i - 1, s);
      assert v == w[s..];
      Shifted(w, v, s, p, p + s - 4);
      if i + 1 < n { Shifted(w, v, s, p + s - 4, p + s); }
    }
  }

  lemma TimesFacts(i: nat, n: nat, s: nat)
    requires i < n
    ensures Times(0, s) == 0 && Times(i, s) + s == Times(i + 1, s) <= Times(n, s) == s + Times(n - 1, s)
    ensures i > 0 ==> Times(i, s) == s + Times(i - 1, s)
    ensures i + 1 < n ==> Times(i, s) + s + s <= Times(n, s)
  {
    TimesUp(i + 1, n, s);
    if i + 1 < n { TimesUp(i + 2, n, s); }
  }

  lemma Shifted(w: seq<byte>, v: seq<byte>, s: nat, p: nat, q: nat)
    requires s <= |w| && v == w[s..] && p <= q <= |v|
    ensures w[p + s..q + s] == v[p..q]
  {
  }

  lemma FirstBlock(w: seq<byte>, a: seq<byte>, b: seq<byte>, c: seq<byte>)
    requires w == a + b + c
    ensures w[..|a|] == a && w[|a|..|a| + |b|] == b
  {
  }

  lemma JumpCut(a: nat, b: nat)
    requires (a - b) % U16_MOD == 0
    ensures OpBytes(Jump(a)) == OpBytes(Jump(b))
  {
    var t := (a - b) / U16_MOD;
    assert a == b + 256 * (256 * t);
    assert a % 256 == b % 256 && a / 256 == b / 256 + 256 * t;
    assert a / 256 % 256 == b / 256 % 256;
  }

  /** The first `j` blocks of a longer chain are the chain of `j` when the 16-bit jumps agree. */
  lemma {:induction false} BlocksPrefix(code: byte, args: seq<byte>, n: nat, j: nat)
    requires 1 <= j <= n && (j == 1 || Times(n - j, Stride(args)) % U16_MOD == 0)
    ensures 4 <= Times(j, Stride(args)) && Times(j, Stride(args)) - 4 <= |Blocks(code, args, n)|
    ensures Blocks(code, args, n)[..Times(j, Stride(args)) - 4] == Blocks(code, args, j)
    decreases j
  {
    hide Blocks, OpBytes;
    var s, b := Stride(args), OpBytes(Block(code, args));
    var w, v := Blocks(code, args, n), Blocks(code, args, j);
    BlocksStep(code, args, n);
    BlocksStep(code, args, j);
    TimesUp(1, j, s);
    TimesUp(j, n, s);
    if j == 1 {
      assert w[..s - 4] == b;
    } else {
      TimesUp(j - 1, n - 1, s);
      JumpCut(Times(n - 1, s), Times(j - 1, s));
      BlocksPrefix(code, args, n - 1, j - 1);
      var w', m := Blocks(code, args, n - 1), Times(j - 1, s) - 4;
      hide Times;
      assert w[..s + m] == b + OpBytes(Jump(Times(n - 1, s))) + w'[..m];
    }
  }

  // ------------------------------------------------------------ cut code

  /** The program of `not` over a chain whose length was cut to `c`. */
  function CutCode(code: byte, args: seq<byte>, n: nat, c: nat): seq<byte>
    requires c <= |Blocks(code, args, n)|
  {
    Blocks(code, args, n)[..c] + OpBytes(Jump(8))
  }

  lemma CutKeeps(code: byte, args: seq<byte>, n: nat, c: nat, p: nat, q: nat)
    requires p <= q <= c <= |Blocks(code, args, n)|
    ensures CutCode(code, args, n, c)[p..q] == Blocks(code, args, n)[p..q]
  {
    hide Blocks, OpBytes;
  }

  /** A jump out of the code, or back, stops the machine. */
  lemma MachineStuck(c: seq<byte>, p: nat, op: Op, k: Test)
    requires OpAt(c, p, op) && (op.no < 4 || p + op.no > |c| + 4)
    ensures Machine(c, p, k) == Stuck
  {
    hide Get16;
  }

  lemma OpInside(c: seq<byte>, p: nat, op: Op)
    requires p + op.Size() <= |c| && c[p..p + op.Size()] == OpBytes(op) && op.Size() < U8_MOD && op.no < U16_MOD
    ensures OpAt(c, p, op)
  {
    OpAtIsBytes(c, p, op);
  }

  /** As long as the blocks are whole, failing tests lead from block to block. */
  lemma {:induction false} FailsThrough(code: byte, args: seq<byte>, n: nat, c: nat, i: nat, k: Test)
    requires |args| <= 240 && code != BC_JMP && c <= |Blocks(code, args, n)| && i <= n
    requires i > 0 ==> Times(i, Stride(args)) - 4 <= c
    requires !k(code, args)
    ensures Machine(CutCode(code, args, n, c), 0, k) == Machine(CutCode(code, args, n, c), Times(i, Stride(args)), k)
  {
    hide Blocks, Machine, OpBytes, OpAt;
    if i > 0 {
      var d, s, q := CutCode(code, args, n, c), Stride(args), Times(i - 1, Stride(args));
      FailsThrough(code, args, n, c, i - 1, k);
      BlockBytes(code, args, n, i - 1);
      hide Times;
      assert d[q..q + s - 4] == OpBytes(Block(code, args)) by { CutKeeps(code, args, n, c, q, q + s - 4); }
      OpInside(d, q, Block(code, args));
      MachineStep(d, q, Block(code, args), k);
    }
  }

  /** A cut inside a block or before its jump: with failing tests the program does not accept. */
  lemma CutInside(code: byte, args: seq<byte>, n: nat, c: nat, i: nat, k: Test)
    requires 12 <= |args| <= 240 && |args| % 4 == 0 && code != BC_JMP && i < n && c <= |Blocks(code, args, n)|
    requires var q := Times(i, Stride(args)); q <= c < q + Stride(args) - 4 && (c - q) % 4 == 0
    requires forall a :: !k(code, a)
    ensures Machine(CutCode(code, args, n, c), 0, k) != Accept
  {
    hide Blocks, Machine, OpBytes, Times;
    var d, s, q := CutCode(code, args, n, c), Stride(args), Times(i, Stride(args));
    FailsThrough(code, args, n, c, i, k);
    MachineEnds(d, k);
    if c == q {
      assert d[q..q + 4] == OpBytes(Jump(8));
      OpInside(d, q, Jump(8));
      MachineStep(d, q, Jump(8), k);
    } else {
      HeaderInside(d, q, code, args, n, c, i, k);
    }
  }

  /** The machine at a block of which only the first bytes are left. */
  lemma HeaderInside(d: seq<byte>, q: nat, code: byte, args: seq<byte>, n: nat, c: nat, i: nat, k: Test)
    requires 12 <= |args| <= 240 && code != BC_JMP && i < n && c <= |Blocks(code, args, n)|
    requires d == CutCode(code, args, n, c) && q == Times(i, Stride(args)) && q + 4 <= c < q + Stride(args) - 4
    requires forall a :: !k(code, a)
    ensures Machine(d, q, k) == Stuck || Machine(d, q, k) == Machine(d, |d| + 4, k)
  {
    hide Blocks;
    BlockBytes(code, args, n, i);
    var w, s, b := Blocks(code, args, n), Stride(args), OpBytes(Block(code, args));
    assert d[q] == w[q] == w[q..q + s - 4][0] == b[0];
    assert d[q + 1] == w[q + 1] == w[q..q + s - 4][1] == b[1];
    assert d[q + 2] == w[q + 2] == w[q..q + s - 4][2] == b[2];
    assert d[q + 3] == w[q + 3] == w[q..q + s - 4][3] == b[3];
    assert Get16(d, q + 2) == s && d[q + 1] == s - 4;
  }

  /** A cut behind a whole block that is not the first: a matching head runs into a jump past the code. */
  lemma CutBehind(code: byte, args: seq<byte>, n: nat, c: nat, k: Test)
    requires 12 <= |args| <= 100 && code != BC_JMP && n > 1
    requires Stride(args) < c <= 127 && c <= |Blocks(code, args, n)|
    requires Misfit(Times(n, Stride(args)) - 4, c) && k(code, args)
    ensures Machine(CutCode(code, args, n, c), 0, k) == Stuck
  {
    hide Blocks, Machine, OpBytes, Misfit, Cut16;
    var d, s, b := CutCode(code, args, n, c), Stride(args), Block(code, args);
    var len, far := Times(n, s) - 4, Times(n - 1, s);
    BlockBytes(code, args, n, 0);
    hide Times, OpAt;
    CutKeeps(code, args, n, c, 0, s - 4);
    CutKeeps(code, args, n, c, s - 4, s);
    assert d[0..s - 4] == OpBytes(b) && d[s - 4..s] == OpBytes(Jump(far));
    OpInside(d, 0, b);
    MachineStep(d, 0, b, k);
    FarAway(len, s - 4, c);
    var near := Cut16(far);
    Jump16(far);
    OpInside(d, s - 4, Jump(near));
    MachineStuck(d, s - 4, Jump(near), k);
  }

  function Cut16(n: nat): (r: nat)
    ensures r < U16_MOD
  {
    n % U16_MOD
  }

  lemma Jump16(n: nat)
    ensures OpBytes(Jump(n)) == OpBytes(Jump(Cut16(n)))
  {
    hide OpBytes;
    JumpCut(n, Cut16(n));
  }

  /** A length that differs from the cut one by a multiple of 2^8 that is none of 2^16. */
  predicate Misfit(len: nat, c: nat) { (len - c) % U8_MOD == 0 && (len - c) % U16_MOD != 0 }

  /** A jump cut to 16 bits that stays near lands where the whole length is congruent to the cut one. */
  lemma NearLands(len: nat, p: nat, c: nat)
    requires p <= len && p < c <= 127 && (len - c) % U8_MOD == 0 && p + Cut16(len - p) <= c + 8
    ensures (len - c) % U16_MOD == 0
  {
    var t, u := (len - p) / U16_MOD, (len - c) / U8_MOD;
    var x := len - p - 65536 * t;
    assert x == Cut16(len - p) && len - c == 256 * u;
    hide Cut16;
    SmallMultiple(p + x - c, u - 256 * t);
    Whole16(len - c, t);
  }

  lemma SmallMultiple(y: int, u: int)
    requires y == 256 * u && -127 <= y <= 8
    ensures y == 0
  {
  }

  lemma FarAway(len: nat, p: nat, c: nat)
    requires p <= len && p < c <= 127 && Misfit(len, c)
    ensures p + Cut16(len - p) > c + 8
  {
    hide Cut16;
    if p + Cut16(len - p) <= c + 8 { NearLands(len, p, c); }
  }

  // ------------------------------------------------------------ which lengths are right

  /** For every outcome of the tests, the program of `not` over the chain gives the head's verdict. */
  ghost predicate Right(side: Side, chain: Chain) {
    var f := Not(Host(side, chain));
    Compile(f).Some? && forall k: Test :: Machine(Compile(f).value, 0, k) == Verdict(HeadHolds(f, k))
  }

  /** The cut length ends behind a whole block, and the jumps before it are those of the shorter chain. */
  predicate CutFits(n: nat, s: nat)
    requires s > 0 && Times(n, s) >= 4
  {
    var c := Char(Times(n, s) - 4);
    c >= 0 && (c + 4) % s == 0 && (c + 4 == s || (Times(n, s) - 4 - c) % U16_MOD == 0)
  }

  /** What the compiler makes of `not` over a chain. */
  lemma NotCompiled(side: Side, chain: Chain)
    ensures var code, args, n := HostCode(side), HostArgs(chain[0]), |chain|;
            var len := Times(n, Stride(args)) - 4;
            Stride(args) == (if chain[0].addr.family == AF_INET6 then 32 else 20) &&
            len >= 16 && |Blocks(code, args, n)| == len && Char(len) <= len &&
            Compile(Not(Host(side, chain))) ==
            if Char(len) < 0 then None else Some(CutCode(code, args, n, Char(len)))
  {
    hide Bytes, ChainOps, HostArgs, Char;
    var code, args, n := HostCode(side), HostArgs(chain[0]), |chain|;
    BlocksStep(code, args, n);
    TimesUp(1, n, Stride(args));
    assert Compile(Host(side, chain)) == Some(Blocks(code, args, n));
  }

  lemma CharCongruent(len: nat)
    ensures len - Char(len) == 256 * ((len + 128) / 256) && -128 <= Char(len) <= 127
  {
  }

  lemma CharByFour(len: nat)
    requires len % 4 == 0
    ensures Char(len) % 4 == 0 && (len - Char(len)) % U8_MOD == 0
  {
    hide Char;
    CharCongruent(len);
    var t, q := len / 4, (len + 128) / 256;
    assert Char(len) == 4 * (t - 64 * q);
  }

  lemma {:induction false} StridesByFour(n: nat, s: nat)
    requires s % 4 == 0
    ensures Times(n, s) % 4 == 0
  {
    if n > 0 { StridesByFour(n - 1, s); }
  }

  /** Where a cut that does not end behind a block falls. */
  lemma CutPlace(c: nat, s: nat, n: nat) returns (i: nat)
    requires (s == 20 || s == 32) && c % 4 == 0 && (c + 4) % s != 0 && c + 4 <= Times(n, s)
    ensures var q := Times(i, s); i < n && q <= c < q + s - 4 && (c - q) % 4 == 0
  {
    hide Times;
    TimesIs(n, s);
    if s == 20 {
      i := (c + 4) / 20;
      TimesIs(i, 20);
    } else {
      i := (c + 4) / 32;
      TimesIs(i, 32);
    }
  }

  /** The number of blocks in the cut length. */
  function CutTo(n: nat, s: nat): nat
    requires s > 0 && Times(n, s) >= 4 && CutFits(n, s)
  {
    (Char(Times(n, s) - 4) + 4) / s
  }

  lemma Shorter(n: nat, s: nat)
    requires (s == 20 || s == 32) && Times(n, s) >= 4 && CutFits(n, s)
    ensures var c, j := Char(Times(n, s) - 4), CutTo(n, s);
            1 <= j <= n && 0 <= c <= 127 && Times(j, s) == c + 4 && (j == 1 || Times(n - j, s) % U16_MOD == 0)
  {
    hide Char, Times;
    var len, j := Times(n, s) - 4, CutTo(n, s);
    var c := Char(len);
    CharCongruent(len);
    Whole(c + 4, s, n);
    TimesUp(j, n, s);
    assert Times(n - j, s) == len - c;
  }

  lemma Whole(len: nat, s: nat, n: nat)
    requires (s == 20 || s == 32) && 0 < len <= Times(n, s) && len % s == 0
    ensures 1 <= len / s <= n && Times(len / s, s) == len && (len == s ==> len / s == 1)
  {
    hide Times;
    TimesIs(n, s);
    if s == 20 {
      TimesIs(len / 20, 20);
    } else {
      TimesIs(len / 32, 32);
    }
  }

  lemma StrideOf(chain: Chain)
    ensures var s := Stride(HostArgs(chain[0]));
            s == (if chain[0].addr.family == AF_INET6 then 32 else 20) && Times(|chain|, s) >= 4 &&
            HostSize(chain) == Times(|chain|, s) - 4
  {
    hide HostArgs;
    TimesIs(|chain|, 20);
    TimesIs(|chain|, 32);
  }

  /** The chain whose program is left of a chain that is an operand, if what is left is one. */
  function CutChain(chain: Chain): Chain {
    var j := CutCount(|chain|, Stride(HostArgs(chain[0])));
    if 1 <= j <= |chain| then chain[..j] else chain
  }

  function CutCount(n: nat, s: nat): nat {
    if s > 0 && Times(n, s) >= 4 && CutFits(n, s) then CutTo(n, s) else n
  }

  /** An operand with every chain in it, or that it is, cut. */
  function CutFilter(f: Filter): Filter {
    match f
    case Host(side, chain) => Host(side, CutChain(chain))
    case And(l, r) => And(CutFilter(l), CutFilter(r))
    case Or(l, r) => Or(CutFilter(l), CutFilter(r))
    case Not(g) => Not(CutFilter(g))
    case _ => f
  }

  /** A filter with its operands cut; a chain that is the whole filter stays. */
  function Trim(f: Filter): Filter { if f.Host? then f else CutFilter(f) }

  lemma {:induction false} CutBlocks(side: Side, chain: Chain)
    requires CutFits(|chain|, Stride(HostArgs(chain[0])))
    ensures HostSize(CutChain(chain)) <= 127
    ensures Operand(Compile(Host(side, CutChain(chain)))) == Operand(Compile(Host(side, chain)))
  {
    hide Blocks, Char, HostArgs, CutFits, Times, HostSize, CutTo;
    StrideOf(chain);
    var code, args, n, s := HostCode(side), HostArgs(chain[0]), |chain|, Stride(HostArgs(chain[0]));
    Shorter(n, s);
    var cut, j, c := CutChain(chain), CutTo(n, s), Char(Times(n, s) - 4);
    assert cut[0] == chain[0] && |cut| == j;
    StrideOf(cut);
    BlocksPrefix(code, args, n, j);
    BlocksCompiled(side, chain);
    BlocksCompiled(side, cut);
  }

  lemma BlocksCompiled(side: Side, chain: Chain)
    ensures var s := Stride(HostArgs(chain[0]));
            Compile(Host(side, chain)) == Some(Blocks(HostCode(side), HostArgs(chain[0]), |chain|)) &&
            |Blocks(HostCode(side), HostArgs(chain[0]), |chain|)| == Times(|chain|, s) - 4
  {
    hide Bytes, ChainOps, HostArgs, Times;
    BlocksStep(HostCode(side), HostArgs(chain[0]), |chain|);
  }

  /** Cutting changes neither the bytes that are compiled nor what they test. */
  lemma {:induction false} CutKeepsCode(f: Filter, k: Test)
    ensures Operand(Compile(CutFilter(f))) == Operand(Compile(f))
    ensures !f.Host? ==> Compile(CutFilter(f)) == Compile(f)
    ensures HeadHolds(CutFilter(f), k) == HeadHolds(f, k)
  {
    hide AndCode, OrCode, NotCode, Operand, CutFits, Stride, HostArgs;
    match f
    case Host(side, chain) =>
      StrideOf(chain);
      if CutFits(|chain|, Stride(HostArgs(chain[0]))) { CutBlocks(side, chain); }
    case And(l, r) => CutKeepsCode(l, k); CutKeepsCode(r, k);
    case Or(l, r) => CutKeepsCode(l, k); CutKeepsCode(r, k);
    case Not(g) => CutKeepsCode(g, k);
    case _ =>
  }

  /**
   * A filter with chains longer than a `char` under `and`, `or` and `not` still has the right verdict
   * if, with those chains cut, it fits.
   */
  lemma TrimmedVerdict(f: Filter, k: Test)
    requires Fits(Trim(f)) && Size(Trim(f)) <= 65531
    ensures Compile(f).Some? && Machine(Compile(f).value, 0, k) == Verdict(HeadHolds(f, k))
  {
    hide Compile, Machine, HeadHolds, CutFilter, Size, Fits;
    CutKeepsCode(f, k);
    CompiledVerdict(Trim(f), k);
  }

  lemma CutHost(side: Side, chain: Chain)
    requires HostSize(CutChain(chain)) <= 127
    ensures var f := Host(side, chain);
            Fits(CutFilter(f)) && Size(CutFilter(f)) <= 127 && Fits(Trim(Not(f))) && Size(Trim(Not(f))) <= 131
  {
    hide CutChain, HostSize;
    var g, h := Host(side, chain), Host(side, CutChain(chain));
    assert CutFilter(g) == h && CutFilter(Not(g)) == Not(h);
    assert Fits(h) && Size(h) <= 127;
  }

  lemma CutFitsRight(side: Side, chain: Chain, k: Test)
    requires CutFits(|chain|, Stride(HostArgs(chain[0])))
    ensures var f := Not(Host(side, chain));
            Compile(f).Some? && Machine(Compile(f).value, 0, k) == Verdict(HeadHolds(f, k))
  {
    hide Compile, Machine, HeadHolds, CutFits, HostSize, HostArgs, CutChain, Trim, Fits, Size;
    CutBlocks(side, chain);
    CutHost(side, chain);
    TrimmedVerdict(Not(Host(side, chain)), k);
  }

  lemma {:induction false} CutFitsNeeded(side: Side, chain: Chain)
    requires !CutFits(|chain|, Stride(HostArgs(chain[0])))
    ensures !Right(side, chain)
  {
    hide Blocks, Machine, Char, HostArgs, Times, CutCode, Compile, HeadHolds;
    NotCompiled(side, chain);
    var n, s := |chain|, Stride(HostArgs(chain[0]));
    var c := Char(Times(n, s) - 4);
    if c >= 0 && (c + 4) % s != 0 {
      WrongInside(side, chain, c);
    } else if c >= 0 {
      WrongBehind(side, chain, c);
    }
  }

  lemma HeadOfNot(side: Side, chain: Chain, k: Test)
    ensures HeadHolds(Not(Host(side, chain)), k) == !k(HostCode(side), HostArgs(chain[0]))
  {
  }

  lemma {:induction false} WrongInside(side: Side, chain: Chain, c: nat)
    requires var s := Stride(HostArgs(chain[0]));
             Times(|chain|, s) >= 4 && c == Char(Times(|chain|, s) - 4) && (c + 4) % s != 0
    ensures !Right(side, chain)
  {
    hide Blocks, Machine, Char, HostArgs, Times, CutCode, Compile, HeadHolds;
    NotCompiled(side, chain);
    var n, args := |chain|, HostArgs(chain[0]);
    StridesByFour(n, Stride(args));
    CharByFour(Times(n, Stride(args)) - 4);
    var i := CutPlace(c, Stride(args), n);
    var k: Test := (_, _) => false;
    CutInside(HostCode(side), args, n, c, i, k);
    HeadOfNot(side, chain, k);
  }

  lemma {:induction false} WrongBehind(side: Side, chain: Chain, c: nat)
    requires var s := Stride(HostArgs(chain[0]));
             Times(|chain|, s) >= 4 && c == Char(Times(|chain|, s) - 4) && (c + 4) % s == 0 && !CutFits(|chain|, s)
    ensures !Right(side, chain)
  {
    hide Blocks, Machine, Char, HostArgs, Times, CutCode, Compile, HeadHolds, CutFits, Misfit;
    NotCompiled(side, chain);
    var n, args := |chain|, HostArgs(chain[0]);
    BehindOf(n, Stride(args), c);
    var k: Test := (_, _) => true;
    CutBehind(HostCode(side), args, n, c, k);
    HeadOfNot(side, chain, k);
  }

  lemma BehindOf(n: nat, s: nat, c: nat)
    requires (s == 20 || s == 32) && Times(n, s) >= 4 && c == Char(Times(n, s) - 4)
    requires (c + 4) % s == 0 && !CutFits(n, s)
    ensures n > 1 && s < c <= 127 && Misfit(Times(n, s) - 4, c)
  {
    hide Char, Times;
    StridesByFour(n, s);
    CharByFour(Times(n, s) - 4);
    CharCongruent(Times(n, s) - 4);
    OneBlock(n, s, c);
  }

  lemma OneBlock(n: nat, s: nat, c: nat)
    requires (s == 20 || s == 32) && (c + 4) % s == 0 && c + 4 != s && c + 4 <= Times(n, s)
    ensures n > 1 && s < c
  {
    hide Times;
    TimesIs(n, s);
    if s == 20 { assert (c + 4) % 20 == 0; } else { assert (c + 4) % 32 == 0; }
  }

  /** The numbers of hosts for which the cut length fits, with blocks of an IPv4 head. */
  lemma FitCounts4(n: nat)
    requires n > 0
    ensures Times(n, 20) >= 4 && (CutFits(n, 20) <==> n % 64 == 1 || 1 <= n % 16384 <= 6)
  {
    hide Times, Char;
    TimesIs(n, 20);
    var len := 20 * n - 4;
    CharCongruent(len);
    if CutFits(n, 20) { Counts4(n, Char(len), (len + 128) / 256); }
    if n % 64 == 1 { Char64(n / 64); }
    if 1 <= n % 16384 <= 6 { Char16384(n / 16384, n % 16384); }
  }

  lemma CharOf(len: nat, q: nat, r: nat)
    requires len + 128 == 256 * q + r && r < 256
    ensures Char(len) == r - 128
  {
  }

  lemma Whole16(x: int, t: int)
    requires x == 65536 * t
    ensures x % U16_MOD == 0
  {
  }

  lemma Char64(m: nat)
    ensures Char(20 * (64 * m + 1) - 4) == 16
  {
    hide Char;
    CharOf(20 * (64 * m + 1) - 4, 5 * m, 144);
  }

  lemma Char16384(m: nat, r: nat)
    requires 1 <= r <= 6
    ensures var len := 20 * (16384 * m + r) - 4; Char(len) == 20 * r - 4 && (len - Char(len)) % U16_MOD == 0
  {
    var len := 20 * (16384 * m + r) - 4;
    hide Char;
    CharOf(len, 1280 * m, 20 * r + 124);
    Whole16(len - Char(len), 5 * m);
  }

  lemma Counts4(n: nat, c: nat, q: nat)
    requires 20 * n - 4 - c == 256 * q && c <= 127 && (c + 4) % 20 == 0 && (c == 16 || (256 * q) % U16_MOD == 0)
    ensures n % 64 == 1 || 1 <= n % 16384 <= 6
  {
    var j := (c + 4) / 20;
    assert 64 * q == 5 * (n - j);
    By64(n, j, q);
    if c != 16 {
      assert q == 256 * (q / 256);
      By16384(n, j, q / 256);
    }
  }

  lemma By64(n: nat, j: nat, q: nat)
    requires 64 * q == 5 * (n - j) && j < 64
    ensures n % 64 == j
  {
    assert n == 64 * (13 * q - (n - j)) + j;
  }

  lemma By16384(n: nat, j: nat, t: nat)
    requires 16384 * t == 5 * (n - j) && j < 16384
    ensures n % 16384 == j
  {
    assert n == 16384 * (4 * (n - j) - 13107 * t) + j;
  }

  /** The same with blocks of an IPv6 head. */
  lemma FitCounts6(n: nat)
    requires n > 0
    ensures Times(n, 32) >= 4 && (CutFits(n, 32) <==> n % 8 == 1 || 1 <= n % 2048 <= 4)
  {
    hide Times, Char;
    TimesIs(n, 32);
    var len := 32 * n - 4;
    CharCongruent(len);
    if CutFits(n, 32) { Counts6(n, Char(len), (len + 128) / 256); }
    if n % 8 == 1 { Char8(n / 8); }
    if 1 <= n % 2048 <= 4 { Char2048(n / 2048, n % 2048); }
  }

  lemma Char8(m: nat)
    ensures Char(32 * (8 * m + 1) - 4) == 28
  {
    hide Char;
    CharOf(32 * (8 * m + 1) - 4, m, 156);
  }

  lemma Char2048(m: nat, r: nat)
    requires 1 <= r <= 4
    ensures var len := 32 * (2048 * m + r) - 4; Char(len) == 32 * r - 4 && (len - Char(len)) % U16_MOD == 0
  {
    var len := 32 * (2048 * m + r) - 4;
    hide Char;
    CharOf(len, 256 * m, 32 * r + 124);
    Whole16(len - Char(len), m);
  }

  lemma Counts6(n: nat, c: nat, q: nat)
    requires 32 * n - 4 - c == 256 * q && c <= 127 && (c + 4) % 32 == 0 && (c == 28 || (256 * q) % U16_MOD == 0)
    ensures n % 8 == 1 || 1 <= n % 2048 <= 4
  {
    var j := (c + 4) / 32;
    assert c + 4 == 32 * j;
    assert n == 8 * q + j;
    if c == 28 {
      By8(n, q);
    } else {
      By2048(n, j, q);
    }
  }

  lemma By8(n: nat, q: nat)
    requires n == 8 * q + 1
    ensures n % 8 == 1
  {
  }

  lemma By2048(n: nat, j: nat, q: nat)
    requires n == 8 * q + j && 1 <= j <= 4 && (256 * q) % U16_MOD == 0
    ensures n % 2048 == j
  {
    var t := (256 * q) / U16_MOD;
    assert q == 256 * t;
    assert n == 2048 * t + j;
  }

  /**
   * The numbers of hosts a chain keeps its verdict with as an operand: under an IPv4 head 1 to 6, then
   * 65, 129 and so on, and 1 to 6 past every multiple of 16384; under an IPv6 head 1 to 4, then 9, 17
   * and so on, and 1 to 4 past every multiple of 2048.
   */
  predicate Counted(chain: Chain) {
    var n := |chain|;
    if chain[0].addr.family == AF_INET6 then n % 8 == 1 || 1 <= n % 2048 <= 4
    else n % 64 == 1 || 1 <= n % 16384 <= 6
  }

  lemma CountedFits(chain: Chain)
    ensures var s := Stride(HostArgs(chain[0]));
            s > 0 && Times(|chain|, s) >= 4 && (CutFits(|chain|, s) <==> Counted(chain))
  {
    hide CutFits, Times, HostArgs, HostSize;
    StrideOf(chain);
    FitCounts4(|chain|);
    FitCounts6(|chain|);
  }

  /** `not` over a chain is compiled to a right program exactly for these numbers of hosts. */
  lemma NotHostsExact(side: Side, chain: Chain)
    ensures Right(side, chain) <==> Counted(chain)
  {
    hide CutFits, Machine, Compile, HeadHolds, Times, Counted;
    CountedFits(chain);
    if CutFits(|chain|, Stride(HostArgs(chain[0]))) {
      CutFitsRight(side, chain, (_, _) => true);
      var f := Not(Host(side, chain));
      forall k: Test ensures Machine(Compile(f).value, 0, k) == Verdict(HeadHolds(f, k)) {
        CutFitsRight(side, chain, k);
      }
    } else {
      CutFitsNeeded(side, chain);
    }
  }

  /** With these numbers a chain is also right beside another operand of `or` and `and`, on either side. */
  lemma HostsBeside(side: Side, chain: Chain, g: Filter, k: Test)
    requires Counted(chain) && Fits(CutFilter(g)) && Size(CutFilter(g)) <= 127
    ensures var h := Host(side, chain);
            forall f | f in [Or(h, g), Or(g, h), And(h, g), And(g, h)] ::
              Compile(f).Some? && Machine(Compile(f).value, 0, k) == Verdict(HeadHolds(f, k))
  {
    hide Compile, Machine, HeadHolds, CutFits, HostSize, HostArgs, Counted, CutChain, CutFilter, Trim, Fits, Size;
    var h := Host(side, chain);
    CountedFits(chain);
    CutBlocks(side, chain);
    forall f | f in [Or(h, g), Or(g, h), And(h, g), And(g, h)]
      ensures Compile(f).Some? && Machine(Compile(f).value, 0, k) == Verdict(HeadHolds(f, k))
    {
      CutHost(side, chain);
      TrimmedTwo(h, g);
      TrimmedVerdict(f, k);
    }
  }

  lemma TrimmedTwo(g: Filter, h: Filter)
    requires Fits(CutFilter(g)) && Size(CutFilter(g)) <= 127 && Fits(CutFilter(h)) && Size(CutFilter(h)) <= 127
    ensures forall f | f in [Or(g, h), Or(h, g), And(g, h), And(h, g)] :: Fits(Trim(f)) && Size(Trim(f)) <= 65531
  {
    hide CutChain;
  }
}
