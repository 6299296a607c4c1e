/** What the kernel does with a filter program, read off its bytes alone, against the interpreter. */
module KernelFilter {
  import opened Wire
  import opened BitWords
  import opened Prefixes
  import opened SocketFilter
  import opened HostChains
  import opened Bytecode
  import opened FilterCompiler

  // ------------------------------------------------------------ the kernel's tests

  /** A C `int` from its 32 bits. */
  function Signed(n: u32): int { if n < 0x8000_0000 then n else n - U32_MOD }

  /** The address of an `inet_diag_hostcond`, in memory words; words it does not have are zero. */
  function CondWords(args: seq<byte>): Words {
    [CondWord(args, 0), CondWord(args, 1), CondWord(args, 2), CondWord(args, 3)]
  }

  function CondWord(args: seq<byte>, i: nat): bv32 {
    if 12 + 4 * i <= |args| then Get32(args, 8 + 4 * i) as bv32 else 0
  }

  /** The last word of an IPv4-mapped address, `::ffff:a.b.c.d`. */
  predicate IsMapped(w: Words) { w[0] == 0 && w[1] == 0 && w[2] == 0xffff_0000 }

  /**
   * A host condition on the wire: family, prefix length, two bytes of padding, port, address. An IPv4
   * condition is also tried on the last word of a mapped address.
   */
  predicate KernelHost(s: Socket, side: Side, args: seq<byte>) {
    |args| >= 8 && |args| == 8 + (if args[0] == 10 then 16 else 4) &&
    var family, len, port := args[0], args[1], Signed(Get32(args, 4));
    (port == -1 || port == s.port(side)) &&
    (len == 0 || (len <= 128 && KernelMatches(s.addr(side), CondWords(args), len, family == 2)))
  }

  predicate KernelMatches(a: HostAddress, cond: Words, len: nat, ipv4: bool)
    requires len <= 128
  {
    Agree(AddressWords(a), cond, len) ||
    (ipv4 && len <= 32 && a.Six? && IsMapped(a.words) && Agree([a.words[3], 0, 0, 0], cond, len))
  }

  /** The operations by number: 1 never holds, 2 to 5 compare ports, 6 asks for autobinding, 7 and 8 for hosts. */
  function KernelTest(s: Socket): Test {
    (code, args) =>
      if 2 <= code <= 5 then
        |args| >= 4 &&
        var side, port := if code <= 3 then Local else Remote, Get16(args, 2);
        if code % 2 == 0 then s.port(side) >= port else s.port(side) <= port
      else if code == 6 then s.autobound
      else if code == 7 || code == 8 then KernelHost(s, if code == 7 then Local else Remote, args)
      else false
  }

  /** A program on a socket: every operation jumps by its second byte if it holds, else by its last two. */
  function KernelRun(c: seq<byte>, p: nat, s: Socket): Outcome
    decreases |c| + 4 - p
  {
    if p == |c| then Accept
    else if p == |c| + 4 then Reject
    else if p + 4 > |c| then Stuck
    else
      var yes, no := c[p + 1], Get16(c, p + 2);
      if yes < 4 || no < 4 || p + yes > |c| || p + no > |c| + 4 then Stuck
      else KernelRun(c, p + if KernelTest(s)(c[p], c[p + 4..p + yes]) then yes else no, s)
  }

  /** Operation 1 is the jump. */
  lemma JumpTest(s: Socket, args: seq<byte>)
    ensures !KernelTest(s)(BC_JMP, args)
  {
  }

  lemma {:induction false} KernelRuns(c: seq<byte>, p: nat, s: Socket)
    ensures KernelRun(c, p, s) == Machine(c, p, KernelTest(s))
    decreases |c| + 4 - p
  {
    hide KernelTest, Get16;
    if p != |c| && p != |c| + 4 && p + 4 <= |c| {
      var yes, no := c[p + 1], Get16(c, p + 2);
      if !(yes < 4 || no < 4 || p + yes > |c| || p + no > |c| + 4) {
        JumpTest(s, c[p + 4..p + yes]);
        KernelRuns(c, p + yes, s);
        KernelRuns(c, p + no, s);
      }
    }
  }

  // ------------------------------------------------------------ hosts

  /** Ports of hosts are C integers, and a pathname is never asked of the kernel. */
  predicate HostOnWire(h: HostCond) { h.addr.family != AF_UNIX && -0x8000_0000 <= h.port < 0x8000_0000 }

  lemma SignedOf(n: int)
    requires -0x8000_0000 <= n < 0x8000_0000
    ensures Signed(n % U32_MOD) == n
  {
    if n < 0 { assert n % U32_MOD == n + U32_MOD; }
  }

  /** The fields of a host condition as they are read back. */
  lemma HostFields(h: HostCond)
    requires Parsed(h.addr) && HostOnWire(h)
    ensures var args := HostArgs(h);
            args[0] == h.addr.family && args[1] == h.addr.bitlen && args[2] == 0 == args[3] &&
            Signed(Get32(args, 4)) == h.port
  {
    hide Le32;
    var args := HostArgs(h);
    assert args[4..8] == Le32(h.port);
    Get32OfLe32(args, 4, h.port);
    SignedOf(h.port);
  }

  lemma CondWordsOf(h: HostCond)
    ensures CondWords(HostArgs(h))[..AddressLength(h.addr) / 4] == PrefixWords(h.addr)[..AddressLength(h.addr) / 4]
  {
    hide HostArgs, WordAt, CondWord;
    CondWordOf(h, 0);
    if h.addr.family == AF_INET6 {
      CondWordOf(h, 1);
      CondWordOf(h, 2);
      CondWordOf(h, 3);
    } else {
      var x, y := CondWords(HostArgs(h)), PrefixWords(h.addr);
      assert x[..1] == [x[0]] && y[..1] == [y[0]];
    }
  }

  lemma CondWordOf(h: HostCond, i: nat)
    requires i < AddressLength(h.addr) / 4
    ensures CondWord(HostArgs(h), i) == WordAt(h.addr.data, i)
  {
    hide Le32;
    var args, d := HostArgs(h), h.addr.data;
    assert forall k :: 0 <= k < AddressLength(h.addr) ==> args[8 + k] == d[k];
    hide HostArgs;
    BytesEqual(args, d, i);
  }

  lemma BytesEqual(args: seq<byte>, d: AddressData, i: nat)
    requires i < 4 && 12 + 4 * i <= |args| && forall k :: 4 * i <= k < 4 * i + 4 ==> args[8 + k] == d[k]
    ensures Get32(args, 8 + 4 * i) as bv32 == WordAt(d, i)
  {
    assert args[8 + 4 * i] == d[4 * i] && args[8 + (4 * i + 1)] == d[4 * i + 1];
    assert args[8 + (4 * i + 2)] == d[4 * i + 2] && args[8 + (4 * i + 3)] == d[4 * i + 3];
  }

  /** Only the words the compared bits lie in decide agreement. */
  lemma AgreePart(x: Words, x': Words, y: Words, y': Words, n: nat, bits: nat)
    requires n <= 4 && bits <= 32 * n && x[..n] == x'[..n] && y[..n] == y'[..n]
    ensures Agree(x, y, bits) == Agree(x', y', bits)
  {
    forall i | 0 <= i < bits ensures AddressBit(x, i) == AddressBit(x', i) && AddressBit(y, i) == AddressBit(y', i) {
      assert x[i / 32] == x[..n][i / 32] && x'[i / 32] == x'[..n][i / 32];
      assert y[i / 32] == y[..n][i / 32] && y'[i / 32] == y'[..n][i / 32];
    }
    hide AddressBit;
  }

  lemma MappedIs()
    ensures MAPPED == 0xffff_0000
  {
  }

  /** The kernel's comparison of a stored condition is the interpreter's of the rule. */
  lemma KernelMatchesRule(a: HostAddress, h: HostCond)
    requires Parsed(h.addr) && h.addr.family != AF_UNIX
    ensures KernelMatches(a, CondWords(HostArgs(h)), h.addr.bitlen, h.addr.family == 2) == Matches(a, h.addr)
  {
    hide CondWords, PrefixWords, HostArgs, AddressMatch, Agree, WordAt;
    var p, cond, n := h.addr, CondWords(HostArgs(h)), AddressLength(h.addr) / 4;
    var rule, x := PrefixWords(p), AddressWords(a);
    CondWordsOf(h);
    MappedIs();
    AgreePart(x, x, cond, rule, n, p.bitlen);
    MatchAgrees(x, rule, p.bitlen);
    if p.family == AF_INET && a.Six? {
      var y, z := a.words[0 := a.words[3]], [a.words[3], 0, 0, 0];
      assert y[..1] == [a.words[3]] == z[..1];
      AgreePart(z, y, cond, rule, 1, p.bitlen);
      MatchAgrees(y, rule, p.bitlen);
    }
  }

  /** The kernel asks of a socket what the interpreter asks of it for the chain's first host. */
  lemma HostAnswers(s: Socket, side: Side, chain: Chain)
    requires HostOnWire(chain[0])
    ensures KernelTest(s)(HostCode(side), HostArgs(chain[0])) == HostHolds(s, side, chain[..1])
  {
    hide KernelMatches, Matches, CondWords, Get32;
    var h, head := chain[0], chain[..1];
    assert head[0] == h;
    HostFields(h);
    KernelMatchesRule(s.addr(side), h);
    hide HostArgs, Signed;
    assert KernelTest(s)(HostCode(side), HostArgs(h)) == KernelHost(s, side, HostArgs(h));
    if h.addr.bitlen != 0 && NodeMatches(s, side, h) { assert NodeMatches(s, side, head[0]); }
  }

  // ------------------------------------------------------------ ports

  /** The port bound is one the 16-bit field can hold, or asks what the cut one asks of every 16-bit port. */
  predicate PortOnWire(cmp: Comparison, port: int) {
    0 <= port < U16_MOD ||
    (cmp == AtLeast && port < 0 && port % U16_MOD == 0) ||
    (cmp == AtMost && port >= U16_MOD && port % U16_MOD == U16_MOD - 1)
  }

  /** Ports of a socket have 16 bits. */
  predicate Bound16(s: Socket) { forall side :: 0 <= s.port(side) < U16_MOD }

  lemma PortTest(s: Socket, side: Side, cmp: Comparison, port: int)
    ensures KernelTest(s)(PortCode(side, cmp), PortArgs(port)) ==
            if cmp == AtLeast then s.port(side) >= port % U16_MOD else s.port(side) <= port % U16_MOD
    ensures PortArgs(port)[..2] == [0, 0]
  {
    hide KernelHost;
    var args := PortArgs(port);
    assert args[2..4] == Le16(port);
    Get16OfLe16(args, 2, port);
  }

  /** The kernel's port test is the interpreter's, for every socket, exactly for these bounds. */
  lemma PortExact(side: Side, cmp: Comparison, port: int)
    ensures (forall s: Socket :: Bound16(s) ==>
              KernelTest(s)(PortCode(side, cmp), PortArgs(port)) == Holds(Port(side, cmp, port), s)) <==>
            PortOnWire(cmp, port)
  {
    hide KernelTest, PortArgs;
    forall s: Socket
      ensures KernelTest(s)(PortCode(side, cmp), PortArgs(port)) ==
              if cmp == AtLeast then s.port(side) >= port % U16_MOD else s.port(side) <= port % U16_MOD
    {
      PortTest(s, side, cmp, port);
    }
    if !PortOnWire(cmp, port) {
      var x := if cmp == AtLeast then (if port < 0 then 0 else U16_MOD - 1) else if port < 0 then 0 else U16_MOD - 1;
      var s := Socket(false, _ => x, _ => One(0), (_, _) => false);
      assert Bound16(s);
      assert KernelTest(s)(PortCode(side, cmp), PortArgs(port)) != Holds(Port(side, cmp, port), s);
    }
  }

  /** `dport >= 70000` accepts nothing, and its program the ports from 4464 on. */
  lemma LargePort(s: Socket)
    requires Bound16(s) && s.port(Remote) >= 4464
    ensures !Holds(Port(Remote, AtLeast, 70000), s)
    ensures KernelTest(s)(PortCode(Remote, AtLeast), PortArgs(70000))
  {
    hide KernelTest;
    PortTest(s, Remote, AtLeast, 70000);
  }

  // ------------------------------------------------------------ whole filters

  /** Every bound and every first host of the filter can be asked of the kernel. */
  predicate OnWire(f: Filter) {
    match f
    case Auto => true
    case Host(_, chain) => HostOnWire(chain[0])
    case Port(_, cmp, port) => PortOnWire(cmp, port)
    case And(l, r) => OnWire(l) && OnWire(r)
    case Or(l, r) => OnWire(l) && OnWire(r)
    case Not(g) => OnWire(g)
  }

  lemma {:induction false} KernelAnswers(f: Filter, s: Socket)
    requires OnWire(f) && Bound16(s)
    ensures Answers(KernelTest(s), f, s)
  {
    hide KernelTest, HostArgs, PortArgs, HostHolds;
    match f
    case Auto => AutoTest(s);
    case Host(side, chain) => HostAnswers(s, side, chain);
    case Port(side, cmp, port) => PortExact(side, cmp, port);
    case And(l, r) => KernelAnswers(l, s); KernelAnswers(r, s);
    case Or(l, r) => KernelAnswers(l, s); KernelAnswers(r, s);
    case Not(g) => KernelAnswers(g, s);
  }

  lemma AutoTest(s: Socket)
    ensures KernelTest(s)(BC_AUTO, []) == s.autobound
  {
  }

  /**
   * From the filter to the kernel's verdict: the bytes of the compiled program, read by the numbers of
   * their operations, accept exactly the sockets that `run_ssfilter` accepts.
   */
  lemma KernelAgrees(f: Filter, s: Socket)
    requires Fits(f) && Size(f) <= 65531 && CoveredChains(f) && OnWire(f) && Bound16(s)
    ensures Compile(f).Some? && KernelRun(Compile(f).value, 0, s) == Verdict(Holds(f, s))
  {
    hide KernelTest, Compile, Machine, KernelRun;
    KernelAnswers(f, s);
    CompilerPreservesMeaning(f, s, KernelTest(s));
    KernelRuns(Compile(f).value, 0, s);
  }
}
