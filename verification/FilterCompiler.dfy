/** The compiler of `ss` from filter trees to bytecode. */
module FilterCompiler {
  import opened Wire
  import opened HostChains
  import opened SocketFilter
  import opened Bytecode

  // -------------------------------------------------------------- leaf code

  function HostCode(side: Side): byte { if side == Remote then BC_D_COND else BC_S_COND }

  function PortCode(side: Side, cmp: Comparison): byte {
    if side == Remote then (if cmp == AtLeast then BC_D_GE else BC_D_LE)
    else (if cmp == AtLeast then BC_S_GE else BC_S_LE)
  }

  function AddressLength(a: HostPrefix): nat { if a.family == AF_INET6 then 16 else 4 }

  /** The `inet_diag_hostcond` stored after a host operation. */
  function HostArgs(h: HostCond): (b: seq<byte>)
    ensures |b| == 8 + AddressLength(h.addr)
  {
    [h.addr.family, h.addr.bitlen % 256, 0, 0] + Le32(h.port) + h.addr.data[..AddressLength(h.addr)]
  }

  function PortArgs(port: int): (b: seq<byte>)
    ensures |b| == 4
  {
    [0, 0] + Le16(port)
  }

  /** A block per stored condition, each but the last followed by a jump to the end. */
  function ChainOps(code: byte, conds: seq<seq<byte>>): (ops: seq<Op>) {
    if conds == [] then []
    else
      var block := Op(code, 8 + |conds[0]|, conds[0]);
      if |conds| == 1 then [block]
      else
        var rest := ChainOps(code, conds[1..]);
        [block, Jump(Len(rest) + 4)] + rest
  }

  function Copies(args: seq<byte>, n: nat): seq<seq<byte>> { seq(n, _ => args) }

  /** Every block of a host chain is filled from the chain's head. */
  function HostOps(side: Side, chain: Chain): seq<Op> {
    ChainOps(HostCode(side), Copies(HostArgs(chain[0]), |chain|))
  }

  // -------------------------------------------------------- intended program

  function AndOps(a: seq<Op>, b: seq<Op>): seq<Op> { Relocate(a, Len(b)) + b }
  function OrOps(a: seq<Op>, b: seq<Op>): seq<Op> { a + [Jump(Len(b) + 4)] + b }
  function NotOps(a: seq<Op>): seq<Op> { a + [Jump(8)] }

  /** The program a filter stands for, with no limit on lengths. */
  function Emit(f: Filter): (ops: seq<Op>) {
    match f
    case Auto => [Op(BC_AUTO, 8, [])]
    case Host(side, chain) => HostOps(side, chain)
    case Port(side, cmp, port) => [Op(PortCode(side, cmp), 12, PortArgs(port))]
    case And(l, r) => AndOps(Emit(l), Emit(r))
    case Or(l, r) => OrOps(Emit(l), Emit(r))
    case Not(g) => NotOps(Emit(g))
  }

  /** What the program tests: every host chain counts as its head alone. */
  predicate HeadHolds(f: Filter, k: Test) {
    match f
    case Auto => k(BC_AUTO, [])
    case Host(side, chain) => k(HostCode(side), HostArgs(chain[0]))
    case Port(side, cmp, port) => k(PortCode(side, cmp), PortArgs(port))
    case And(l, r) => HeadHolds(l, k) && HeadHolds(r, k)
    case Or(l, r) => HeadHolds(l, k) || HeadHolds(r, k)
    case Not(g) => !HeadHolds(g, k)
  }

  function Verdict(b: bool): Outcome { if b then Accept else Reject }

  // ---------------------------------------------------------- host chains

  predicate AnyOf(code: byte, conds: seq<seq<byte>>, k: Test) {
    exists i :: 0 <= i < |conds| && k(code, conds[i])
  }

  lemma {:induction false} ChainLength(code: byte, conds: seq<seq<byte>>, n: nat)
    requires conds != [] && forall i :: 0 <= i < |conds| ==> |conds[i]| == n
    ensures Len(ChainOps(code, conds)) == |conds| * (n + 8) - 4
    decreases |conds|
  {
    if |conds| > 1 {
      ChainLength(code, conds[1..], n);
      var ops := ChainOps(code, conds);
      assert ops[1..][1..] == ChainOps(code, conds[1..]);
    }
  }

  /** A chain's code is well formed and computes the disjunction of the stored conditions. */
  lemma {:induction false} ChainMeaning(code: byte, conds: seq<seq<byte>>, k: Test)
    requires conds != [] && code != BC_JMP
    requires forall i :: 0 <= i < |conds| ==> |conds[i]| + 4 < U8_MOD
    ensures WellFormed(ChainOps(code, conds))
    ensures Exec(ChainOps(code, conds), 0, k) == Verdict(AnyOf(code, conds, k))
    decreases |conds|
  {
    var ops := ChainOps(code, conds);
    if |conds| == 1 {
      assert conds[0] in conds;
    } else {
      var rest := ChainOps(code, conds[1..]);
      var tail := [Jump(Len(rest) + 4)] + rest;
      assert ops[1..] == tail && tail[1..] == rest;
      ChainMeaning(code, conds[1..], k);
      LandsAllOf(rest);
      ExecExit(rest, 0, k);
      assert Lands(tail, 4) && WellFormed(tail);
      AnyOfCons(code, conds, k);
    }
  }

  lemma AnyOfCons(code: byte, conds: seq<seq<byte>>, k: Test)
    requires conds != []
    ensures AnyOf(code, conds, k) <==> k(code, conds[0]) || AnyOf(code, conds[1..], k)
  {
    if i :| 0 <= i < |conds| && k(code, conds[i]) && i > 0 {
      assert k(code, conds[1..][i - 1]);
    }
    if i :| 0 <= i < |conds[1..]| && k(code, conds[1..][i]) {
      assert k(code, conds[i + 1]);
    }
  }

  lemma LandsAllOf(ops: seq<Op>)
    ensures Lands(ops, Len(ops))
  {}

  /** Blocks of 16 or 28 bytes, and a 4-byte jump after each but the last. */
  function HostSize(chain: Chain): nat {
    if chain[0].addr.family == AF_INET6 then 32 * |chain| - 4 else 20 * |chain| - 4
  }

  lemma HostMeaning(side: Side, chain: Chain, k: Test)
    ensures WellFormed(HostOps(side, chain))
    ensures Exec(HostOps(side, chain), 0, k) == Verdict(k(HostCode(side), HostArgs(chain[0])))
    ensures Len(HostOps(side, chain)) == HostSize(chain)
  {
    var conds := Copies(HostArgs(chain[0]), |chain|);
    ChainMeaning(HostCode(side), conds, k);
    ChainLength(HostCode(side), conds, 8 + AddressLength(chain[0].addr));
    assert k(HostCode(side), conds[0]) == k(HostCode(side), HostArgs(chain[0]));
  }

  // ------------------------------------------------------------ correctness

  /**
   * For every filter: the program tiles its bytes, every jump lands, and it ends at its length
   * exactly when the filter holds of the socket's answers, four past it otherwise.
   */
  lemma {:induction false} EmitMeaning(f: Filter, k: Test)
    ensures WellFormed(Emit(f))
    ensures Exec(Emit(f), 0, k) == Verdict(HeadHolds(f, k))
  {
    match f
    case Auto => TestMeaning(BC_AUTO, [], k);
    case Port(side, cmp, port) => TestMeaning(PortCode(side, cmp), PortArgs(port), k);
    case Host(side, chain) => HostMeaning(side, chain, k);
    case And(l, r) =>
      EmitMeaning(l, k);
      EmitMeaning(r, k);
      AndMeaning(Emit(l), Emit(r), k);
    case Or(l, r) =>
      EmitMeaning(l, k);
      EmitMeaning(r, k);
      OrMeaning(Emit(l), Emit(r), k);
    case Not(g) =>
      EmitMeaning(g, k);
      NotMeaning(Emit(g), k);
  }

  lemma {:induction false} TestMeaning(code: byte, args: seq<byte>, k: Test)
    requires code != BC_JMP && |args| + 4 < U8_MOD
    ensures WellFormed([Op(code, |args| + 8, args)])
    ensures Exec([Op(code, |args| + 8, args)], 0, k) == Verdict(k(code, args))
    ensures Len([Op(code, |args| + 8, args)]) == |args| + 4
  {}

  lemma {:induction false} AndMeaning(a: seq<Op>, b: seq<Op>, k: Test)
    requires WellFormed(a) && WellFormed(b)
    ensures WellFormed(AndOps(a, b))
    ensures Exec(a, 0, k) == Accept ==> Exec(AndOps(a, b), 0, k) == Exec(b, 0, k)
    ensures Exec(a, 0, k) == Reject ==> Exec(AndOps(a, b), 0, k) == Reject
  {
    WellFormedRelocated(a, b);
    ExecRelocated(a, b, 0, k);
  }

  lemma {:induction false} OrMeaning(a: seq<Op>, b: seq<Op>, k: Test)
    requires WellFormed(a) && WellFormed(b)
    ensures WellFormed(OrOps(a, b))
    ensures Exec(a, 0, k) == Accept ==> Exec(OrOps(a, b), 0, k) == Accept
    ensures Exec(a, 0, k) == Reject ==> Exec(OrOps(a, b), 0, k) == Exec(b, 0, k)
  {
    var tail := [Jump(Len(b) + 4)] + b;
    assert tail[1..] == b && a + [Jump(Len(b) + 4)] + b == a + tail;
    LandsAllOf(b);
    WellFormedAppend(a, tail);
    ExecAppend(a, tail, 0, k);
    ExecExit(b, 0, k);
  }

  lemma {:induction false} NotMeaning(a: seq<Op>, k: Test)
    requires WellFormed(a)
    ensures WellFormed(NotOps(a))
    ensures Exec(a, 0, k) == Accept ==> Exec(NotOps(a), 0, k) == Reject
    ensures Exec(a, 0, k) == Reject ==> Exec(NotOps(a), 0, k) == Accept
  {
    WellFormedAppend(a, [Jump(8)]);
    ExecAppend(a, [Jump(8)], 0, k);
  }

  // ----------------------------------------------- the compiler as it is written

  /** A C `char`: sub-program lengths are kept in one, so they wrap at 128. */
  function Char(n: nat): (r: int)
    ensures r <= n && (r == n <==> n <= 127)
  {
    (n + 128) % 256 - 128
  }

  /**
   * The bytes of a sub-program that the `char` length lets through. `None` means no program:
   * a negative length makes the copy undefined.
   */
  function Operand(a: Option<seq<byte>>): (r: Option<seq<byte>>)
    ensures r.Some? ==> a.Some? && |r.value| <= |a.value|
    ensures r.Some? && |r.value| == |a.value| ==> |a.value| <= 127
    ensures a.Some? && |a.value| <= 127 ==> r == a
  {
    if a.None? then None
    else
      var n := Char(|a.value|);
      if n < 0 then None
      else
        assert n == |a.value| ==> a.value[..n] == a.value;
        Some(a.value[..n])
  }

  function AndCode(a1: Option<seq<byte>>, a2: Option<seq<byte>>): (c: Option<seq<byte>>)
    ensures c.Some? ==> a1.Some? && a2.Some? && |c.value| == |a1.value| + |a2.value|
  {
    if a1.None? || a2.None? then None
    else PatchFrom(a1.value + a2.value, 0, |a1.value|, |a2.value|)
  }

  function OrCode(a1: Option<seq<byte>>, a2: Option<seq<byte>>): (c: Option<seq<byte>>)
    ensures c.Some? ==> a1.Some? && a2.Some? && |c.value| == |a1.value| + 4 + |a2.value|
  {
    if a1.None? || a2.None? then None
    else Some(a1.value + OpBytes(Jump(|a2.value| + 4)) + a2.value)
  }

  function NotCode(a1: Option<seq<byte>>): (c: Option<seq<byte>>)
    ensures c.Some? ==> a1.Some? && |c.value| == |a1.value| + 4
  {
    if a1.None? then None else Some(a1.value + OpBytes(Jump(8)))
  }

  /** `ssfilter_bytecompile`. `None` also covers a relocation walk that aborts. */
  function Compile(f: Filter): (c: Option<seq<byte>>) {
    match f
    case And(l, r) => AndCode(Operand(Compile(l)), Operand(Compile(r)))
    case Or(l, r) => OrCode(Operand(Compile(l)), Operand(Compile(r)))
    case Not(g) => NotCode(Operand(Compile(g)))
    case _ => Some(Bytes(Emit(f)))
  }

  /** The length in bytes of the intended program. */
  function Size(f: Filter): nat {
    match f
    case Auto => 4
    case Host(_, chain) => HostSize(chain)
    case Port(_, _, _) => 8
    case And(l, r) => Size(l) + Size(r)
    case Or(l, r) => Size(l) + 4 + Size(r)
    case Not(g) => Size(g) + 4
  }

  /** Every operand of `and`, `or` and `not` takes at most 127 bytes. */
  predicate Fits(f: Filter) {
    match f
    case And(l, r) => Fits(l) && Fits(r) && Size(l) <= 127 && Size(r) <= 127
    case Or(l, r) => Fits(l) && Fits(r) && Size(l) <= 127 && Size(r) <= 127
    case Not(g) => Fits(g) && Size(g) <= 127
    case _ => true
  }

  lemma {:induction false} EmitSize(f: Filter)
    ensures Len(Emit(f)) == Size(f)
  {
    match f
    case Auto => TestMeaning(BC_AUTO, [], (_, _) => true);
    case Port(side, cmp, port) => TestMeaning(PortCode(side, cmp), PortArgs(port), (_, _) => true);
    case Host(side, chain) => HostMeaning(side, chain, (_, _) => true);
    case And(l, r) =>
      EmitSize(l); EmitSize(r);
      OpsSize(Emit(l), Emit(r));
    case Or(l, r) =>
      EmitSize(l); EmitSize(r);
      OpsSize(Emit(l), Emit(r));
    case Not(g) =>
      EmitSize(g);
      OpsSize(Emit(g), []);
  }

  lemma {:induction false} OpsSize(a: seq<Op>, b: seq<Op>)
    ensures Len(AndOps(a, b)) == Len(a) + Len(b)
    ensures Len(OrOps(a, b)) == Len(a) + 4 + Len(b)
    ensures Len(NotOps(a)) == Len(a) + 4
  {
    RelocateLen(a, Len(b));
    LenAppend(Relocate(a, Len(b)), b);
    LenAppend(a, [Jump(Len(b) + 4)]);
    LenAppend(a + [Jump(Len(b) + 4)], b);
    LenAppend(a, [Jump(8)]);
  }

  /** The compiler never returns more than the intended program, and that much only if all fits. */
  lemma {:induction false} CompiledLength(f: Filter)
    ensures Compile(f).Some? ==> |Compile(f).value| <= Size(f)
    ensures Compile(f).Some? && |Compile(f).value| == Size(f) ==> Fits(f)
  {
    match f
    case And(l, r) => CompiledLength(l); CompiledLength(r);
    case Or(l, r) => CompiledLength(l); CompiledLength(r);
    case Not(g) => CompiledLength(g);
    case _ => EmitSize(f);
  }

  /** The compiler returned the intended program for `f`. */
  ghost predicate AsIntended(f: Filter) { Compile(f) == Some(Bytes(Emit(f))) }

  lemma {:induction false} CompiledFits(f: Filter)
    requires Fits(f)
    ensures AsIntended(f)
  {
    match f
    case And(l, r) =>
      CompiledFits(l); CompiledFits(r); EmitSize(l); EmitSize(r);
      EmitMeaning(l, (_, _) => true);
      AndIntended(Emit(l), Emit(r));
    case Or(l, r) =>
      CompiledFits(l); CompiledFits(r); EmitSize(l); EmitSize(r);
      OrIntended(Emit(l), Emit(r));
    case Not(g) =>
      CompiledFits(g); EmitSize(g);
      NotIntended(Emit(g));
    case _ =>
  }

  lemma {:induction false} AndIntended(a: seq<Op>, b: seq<Op>)
    requires Len(a) <= 127 && Len(b) <= 127 && WellFormed(a)
    ensures AndCode(Some(Bytes(a)), Some(Bytes(b))) == Some(Bytes(AndOps(a, b)))
  {
    hide PatchFrom, CodeAt, Relocate, WellFormed, Bytes;
    var c, a' := Bytes(a) + Bytes(b), Relocate(a, Len(b));
    BytesAt(c, 0, a);
    var p := PatchRelocates(c, 0, Len(a), a, Len(b));
    RelocateLen(a, Len(b));
    CodeAtBytes(p, 0, a');
    BytesAppend(a', b);
    assert p[Len(a)..] == Bytes(b);
    assert p == p[..Len(a)] + p[Len(a)..];
  }

  lemma {:induction false} OrIntended(a: seq<Op>, b: seq<Op>)
    ensures OrCode(Some(Bytes(a)), Some(Bytes(b))) == Some(Bytes(OrOps(a, b)))
  {
    JumpBytes(a, Len(b) + 4, b);
  }

  lemma {:induction false} NotIntended(a: seq<Op>)
    ensures NotCode(Some(Bytes(a))) == Some(Bytes(NotOps(a)))
  {
    JumpBytes(a, 8, []);
    assert a + [Jump(8)] + [] == a + [Jump(8)];
    assert Bytes(a) + OpBytes(Jump(8)) + [] == Bytes(a) + OpBytes(Jump(8));
  }

  lemma {:induction false} JumpBytes(a: seq<Op>, no: nat, b: seq<Op>)
    ensures Bytes(a + [Jump(no)] + b) == Bytes(a) + OpBytes(Jump(no)) + Bytes(b)
  {
    BytesAppend(a + [Jump(no)], b);
    BytesAppend(a, [Jump(no)]);
    assert [Jump(no)][1..] == [];
  }

  /** The compiler produces the intended program exactly when every operand fits in a `char`. */
  lemma {:induction false} CompileExact(f: Filter)
    ensures AsIntended(f) <==> Fits(f)
  {
    if Fits(f) { CompiledFits(f); }
    CompiledLength(f);
    EmitSize(f);
  }

  /**
   * Main theorem on the machine. The attribute that carries a program has a 16-bit length with
   * a 4-byte header, which bounds the program by 65531 bytes.
   */
  lemma {:induction false} CompiledVerdict(f: Filter, k: Test)
    requires Fits(f) && Size(f) <= 65531
    ensures Compile(f).Some? && Machine(Compile(f).value, 0, k) == Verdict(HeadHolds(f, k))
  {
    var ops := Emit(f);
    CompiledFits(f);
    EmitSize(f);
    EmitMeaning(f, k);
    BytesAt(Bytes(ops), 0, ops);
    MachineRuns(Bytes(ops), 0, ops, 0, k);
  }

  // ------------------------------------------------- against the interpreter

  /** The machine's leaf tests give the interpreter's answers for socket `s`. */
  ghost predicate Answers(k: Test, f: Filter, s: Socket) {
    match f
    case Auto => k(BC_AUTO, []) == s.autobound
    case Host(side, chain) => k(HostCode(side), HostArgs(chain[0])) == HostHolds(s, side, chain[..1])
    case Port(side, cmp, port) => k(PortCode(side, cmp), PortArgs(port)) == PortHolds(s, side, cmp, port)
    case And(l, r) => Answers(k, l, s) && Answers(k, r, s)
    case Or(l, r) => Answers(k, l, s) && Answers(k, r, s)
    case Not(g) => Answers(k, g, s)
  }

  predicate CoveredChains(f: Filter) {
    match f
    case Host(_, chain) => HeadCovers(chain)
    case And(l, r) => CoveredChains(l) && CoveredChains(r)
    case Or(l, r) => CoveredChains(l) && CoveredChains(r)
    case Not(g) => CoveredChains(g)
    case _ => true
  }

  lemma {:induction false} HeadHoldsHolds(f: Filter, s: Socket, k: Test)
    requires Answers(k, f, s) && CoveredChains(f)
    ensures HeadHolds(f, k) == Holds(f, s)
  {
    match f
    case Host(side, chain) => HeadSuffices(side, chain);
    case And(l, r) => HeadHoldsHolds(l, s, k); HeadHoldsHolds(r, s, k);
    case Or(l, r) => HeadHoldsHolds(l, s, k); HeadHoldsHolds(r, s, k);
    case Not(g) => HeadHoldsHolds(g, s, k);
    case _ =>
  }

  /** The compiled program accepts exactly the sockets `run_ssfilter` accepts. */
  lemma {:induction false} CompilerPreservesMeaning(f: Filter, s: Socket, k: Test)
    requires Fits(f) && Size(f) <= 65531 && CoveredChains(f) && Answers(k, f, s)
    ensures Compile(f).Some? && Machine(Compile(f).value, 0, k) == Verdict(Holds(f, s))
  {
    CompiledVerdict(f, k);
    HeadHoldsHolds(f, s, k);
  }

  /** Thirteen IPv4 hosts take 256 bytes, a `char` of 0: their negation rejects everything. */
  lemma {:induction false} ThirteenHostsVanish(side: Side, chain: Chain, k: Test)
    requires |chain| == 13 && chain[0].addr.family != AF_INET6
    ensures !Fits(Not(Host(side, chain)))
    ensures Compile(Not(Host(side, chain))).Some?
    ensures Machine(Compile(Not(Host(side, chain))).value, 0, k) == Reject
  {
    HostMeaning(side, chain, k);
    var c := OpBytes(Jump(8));
    assert Compile(Not(Host(side, chain))) == Some(c) by {
      assert Char(256) == 0;
      assert Bytes(Emit(Host(side, chain)))[..0] + c == c;
    }
    OpAtIsBytes(c, 0, Jump(8));
    assert c[0..4] == c;
  }

  /** Seven IPv4 hosts already take more than a `char` holds. */
  lemma {:induction false} SevenHostsOverflow(side: Side, chain: Chain)
    requires |chain| == 7 && chain[0].addr.family != AF_INET6
    ensures Compile(Not(Host(side, chain))) == None
  {
    HostMeaning(side, chain, (_, _) => true);
    assert Char(136) == -120;
  }

  // ------------------------------------------------------ the compiler's buffers

  /** Writing one operation into a buffer whose first `p` bytes are done. */
  method WriteOp(a: array<byte>, p: nat, op: Op, ghost whole: seq<byte>)
    requires p + op.Size() <= a.Length == |whole|
    requires a[..p] == whole[..p] && whole[p..p + op.Size()] == OpBytes(op)
    modifies a
    ensures a[..p + op.Size()] == whole[..p + op.Size()]
  {
    var b := OpBytes(op);
    forall i | 0 <= i < |b| { a[p + i] := b[i]; }
    SplitEqual(a[..p + |b|], whole[..p + |b|], p);
    assert a[..p + |b|][p..] == b && whole[..p + |b|][p..] == whole[p..p + |b|];
    assert a[..p + |b|][..p] == old(a[..p]) && whole[..p + |b|][..p] == whole[..p];
  }

  /** The first loop over a host chain: the size of its code. */
  method HostLength(chain: Chain) returns (len: nat)
    ensures len == HostSize(chain)
  {
    var i := 0;
    len := 0;
    while i < |chain|
      invariant 0 <= i <= |chain|
      invariant len == (if chain[0].addr.family == AF_INET6 then 32 * i else 20 * i)
                       - (if i == |chain| then 4 else 0)
    {
      len := len + 12 + AddressLength(chain[0].addr);
      if i + 1 < |chain| { len := len + 4; }
      i := i + 1;
    }
  }

  /** The second loop: blocks and jumps fill exactly the precomputed length. */
  method CompileHost(side: Side, chain: Chain) returns (a: array<byte>)
    ensures fresh(a) && a[..] == Bytes(HostOps(side, chain))
  {
    hide ChainOps, Copies, OpBytes;
    var len := HostLength(chain);
    var args, code := HostArgs(chain[0]), HostCode(side);
    HostMeaning(side, chain, (_, _) => true);
    a := new byte[len];
    ghost var whole := Bytes(HostOps(side, chain));
    var block := Op(code, 8 + |args|, args);
    ghost var todo := HostOps(side, chain);
    var ptr, i := 0, 0;
    while i < |chain|
      invariant 0 <= i <= |chain| && 0 <= ptr <= len == a.Length == |whole| && fresh(a)
      invariant todo == ChainOps(code, Copies(args, |chain| - i)) && (i == |chain| ==> todo == [])
      invariant whole[ptr..] == Bytes(todo) && a[..ptr] == whole[..ptr]
    {
      ghost var rest := CopiesStep(code, args, |chain| - i);
      if i + 1 < |chain| {
        ptr := WriteLink(a, ptr, block, rest, whole);
      } else {
        ChainLast(whole, ptr, block);
        WriteOp(a, ptr, block, whole);
        ptr := ptr + block.Size();
      }
      todo := rest;
      i := i + 1;
    }
    assert a[..ptr] == a[..] && whole[..ptr] == whole;
  }

  /** A block that is not the last, and the jump after it to the end of the buffer. */
  method WriteLink(a: array<byte>, ptr: nat, block: Op, ghost rest: seq<Op>, ghost whole: seq<byte>)
    returns (next: nat)
    requires ptr <= a.Length == |whole| && a[..ptr] == whole[..ptr]
    requires whole[ptr..] == Bytes([block, Jump(Len(rest) + 4)] + rest)
    modifies a
    ensures next <= a.Length && a[..next] == whole[..next] && whole[next..] == Bytes(rest)
  {
    ChainNext(whole, ptr, block, rest);
    WriteOp(a, ptr, block, whole);
    next := ptr + block.Size();
    WriteOp(a, next, Jump(a.Length - next), whole);
    next := next + 4;
  }

  lemma {:induction false} CopiesStep(code: byte, args: seq<byte>, n: nat) returns (rest: seq<Op>)
    requires n > 0
    ensures rest == ChainOps(code, Copies(args, n - 1))
    ensures n == 1 ==> rest == [] && ChainOps(code, Copies(args, n)) == [Op(code, 8 + |args|, args)]
    ensures n > 1 ==> ChainOps(code, Copies(args, n)) == [Op(code, 8 + |args|, args), Jump(Len(rest) + 4)] + rest
  {
    assert Copies(args, n)[1..] == Copies(args, n - 1);
    rest := ChainOps(code, Copies(args, n - 1));
  }

  lemma {:induction false} ChainLast(whole: seq<byte>, ptr: nat, block: Op)
    requires ptr <= |whole| && whole[ptr..] == Bytes([block])
    ensures ptr + block.Size() == |whole| && whole[ptr..|whole|] == OpBytes(block)
    ensures whole[|whole|..] == Bytes([])
  {
    assert [block][1..] == [];
  }

  /** What the chain loop finds at its write position, and what is left after it. */
  lemma {:induction false} ChainNext(whole: seq<byte>, ptr: nat, block: Op, rest: seq<Op>)
    requires ptr <= |whole| && whole[ptr..] == Bytes([block, Jump(Len(rest) + 4)] + rest)
    ensures var p := ptr + block.Size();
            p + 4 <= |whole| && whole[ptr..p] == OpBytes(block) &&
            whole[p..p + 4] == OpBytes(Jump(|whole| - p)) && whole[p + 4..] == Bytes(rest)
  {
    var n, jump := block.Size(), Jump(Len(rest) + 4);
    assert [block, jump] + rest == [block] + [jump] + rest;
    assert Bytes([block]) == OpBytes(block) by { assert [block][1..] == []; }
    hide Bytes, OpBytes;
    JumpBytes([block], Len(rest) + 4, rest);
    var t := OpBytes(block) + OpBytes(jump) + Bytes(rest);
    assert t[..n] == OpBytes(block) && t[n..n + 4] == OpBytes(jump) && t[n + 4..] == Bytes(rest);
    assert whole[ptr..ptr + n] == t[..n] && whole[ptr + n..ptr + n + 4] == t[n..n + 4];
    assert whole[ptr + n + 4..] == t[n + 4..];
  }

  /** A buffer of its own for one operation. */
  method CompileTest(op: Op) returns (a: array<byte>)
    ensures fresh(a) && a[..] == Bytes([op])
  {
    var b := OpBytes(op);
    assert [op][1..] == [];
    a := new byte[|b|](i requires 0 <= i < |b| => b[i]);
    assert a[..] == b;
  }

  /** The compiler: it returns a buffer holding exactly the bytes of `Compile`, or no program. */
  method CompileFilter(f: Filter) returns (r: Option<array<byte>>)
    ensures r.Some? == Compile(f).Some?
    ensures r.Some? ==> fresh(r.value) && r.value[..] == Compile(f).value
  {
    match f
    case Auto =>
      var a := CompileTest(Op(BC_AUTO, 8, []));
      r := Some(a);
    case Port(side, cmp, port) =>
      var a := CompileTest(Op(PortCode(side, cmp), 12, PortArgs(port)));
      r := Some(a);
    case Host(side, chain) =>
      var a := CompileHost(side, chain);
      r := Some(a);
    case And(f1, f2) =>
      var r1 := CompileFilter(f1);
      var r2 := CompileFilter(f2);
      if r1.None? || r2.None? { return None; }
      r := JoinAnd(r1.value, r2.value);
    case Or(f1, f2) =>
      var r1 := CompileFilter(f1);
      var r2 := CompileFilter(f2);
      if r1.None? || r2.None? { return None; }
      r := JoinJump(r1.value, r2.value, true);
    case Not(g) =>
      var r1 := CompileFilter(g);
      if r1.None? { return None; }
      var none := new byte[0];
      r := JoinJump(r1.value, none, false);
      assert none[..] == [];
  }

  method JoinAnd(a1: array<byte>, a2: array<byte>) returns (r: Option<array<byte>>)
    ensures var c := AndCode(Operand(Some(a1[..])), Operand(Some(a2[..])));
            r.Some? == c.Some? && (r.Some? ==> fresh(r.value) && r.value[..] == c.value)
  {
    var l1, l2 := Char(a1.Length), Char(a2.Length);
    if l1 < 0 || l2 < 0 { return None; }
    var a := new byte[l1 + l2];
    forall i | 0 <= i < l1 { a[i] := a1[i]; }
    forall i | 0 <= i < l2 { a[l1 + i] := a2[i]; }
    assert a[..] == a1[..][..l1] + a2[..][..l2];
    var ok := Patch(a, l1, l2);
    r := if ok then Some(a) else None;
  }

  /** The `or` case, and without a second operand the `not` case. */
  method JoinJump(a1: array<byte>, a2: array<byte>, or: bool) returns (r: Option<array<byte>>)
    requires or || a2.Length == 0
    ensures var c := if or then OrCode(Operand(Some(a1[..])), Operand(Some(a2[..])))
                     else NotCode(Operand(Some(a1[..])));
            r.Some? == c.Some? && (r.Some? ==> fresh(r.value) && r.value[..] == c.value)
  {
    var l1, l2 := Char(a1.Length), Char(a2.Length);
    if l1 < 0 || l2 < 0 { return None; }
    var jump := OpBytes(Jump(if or then l2 + 4 else 8));
    var a := new byte[l1 + 4 + l2];
    forall i | 0 <= i < l1 { a[i] := a1[i]; }
    forall i | 0 <= i < l2 { a[l1 + 4 + i] := a2[i]; }
    forall i | 0 <= i < 4 { a[l1 + i] := jump[i]; }
    assert a[..] == a1[..][..l1] + jump + a2[..][..l2];
    r := Some(a);
  }
}
