/** The filter tree of `ss` and its direct interpreter. */
module SocketFilter {
  import opened Wire
  import BitWords
  import opened Prefixes

  const AF_UNIX := 1
  const AF_INET := 2
  const AF_INET6 := 10

  type AddressData = s: seq<byte> | |s| == 32 witness seq(32, _ => 0)

  /** `inet_prefix`, without the two fields the filter never reads. */
  datatype HostPrefix = HostPrefix(family: byte, bitlen: int, data: AddressData)

  /** The lengths the parser of host conditions accepts. */
  predicate Parsed(p: HostPrefix) {
    p.family == AF_UNIX || 0 <= p.bitlen <= if p.family == AF_INET6 then 128 else 32
  }

  /** One node of an `aafilter` chain; a port of -1 means any port. */
  datatype HostCond = HostCond(addr: HostPrefix, port: int)

  type Chain = s: seq<HostCond> | |s| > 0 && forall i :: 0 <= i < |s| ==> Parsed(s[i].addr)
    witness [HostCond(HostPrefix(0, 0, seq(32, _ => 0)), 0)]

  datatype Side = Local | Remote
  datatype Comparison = AtLeast | AtMost

  datatype Filter =
    | Auto
    | Host(side: Side, chain: Chain)
    | Port(side: Side, cmp: Comparison, port: int)
    | And(left: Filter, right: Filter)
    | Or(left: Filter, right: Filter)
    | Not(inner: Filter)

  type Words = s: seq<bv32> | |s| == 4 witness [0, 0, 0, 0]

  /** A socket's address: one word for IPv4, link and netlink sockets, four for IPv6. */
  datatype HostAddress = One(word: bv32) | Six(words: Words)

  function AddressWords(a: HostAddress): Words { if a.One? then [a.word, 0, 0, 0] else a.words }

  /** Word `i` of an address as it lies in memory. */
  function WordAt(d: AddressData, i: nat): bv32
    requires i < 8
  {
    (d[4 * i] as int + 0x100 * d[4 * i + 1] as int + 0x1_0000 * d[4 * i + 2] as int +
     0x100_0000 * d[4 * i + 3] as int) as bv32
  }

  function PrefixWords(p: HostPrefix): Words {
    [WordAt(p.data, 0), WordAt(p.data, 1), WordAt(p.data, 2), WordAt(p.data, 3)]
  }

  /** The third word of an IPv4-mapped address, `htonl(0xffff)`. */
  const MAPPED: bv32 := BitWords.Swap(0xffff)

  /** `inet2_addr_match`: a pure IPv4 rule also matches the mapped addresses of IPv6 sockets. */
  predicate Matches(a: HostAddress, p: HostPrefix)
    requires Parsed(p) && p.family != AF_UNIX
  {
    AddressMatch(AddressWords(a), PrefixWords(p), p.bitlen) == 0 ||
    (p.family == AF_INET && a.Six? && a.words[0] == 0 && a.words[1] == 0 && a.words[2] == MAPPED &&
     AddressMatch(a.words[0 := a.words[3]], PrefixWords(p), p.bitlen) == 0)
  }

  /** What one socket answers to each elementary question of the interpreter. */
  datatype Socket = Socket(
    autobound: bool,
    port: Side -> int,
    addr: Side -> HostAddress,
    unixMatches: (Side, HostPrefix) -> bool)

  /** No chain mixes pathnames with addresses. */
  predicate NodeMatches(s: Socket, side: Side, c: HostCond)
    requires Parsed(c.addr)
  {
    c.addr.family != AF_UNIX && Matches(s.addr(side), c.addr)
  }

  /** A host condition: the head's port, then any address of the chain. */
  predicate HostHolds(s: Socket, side: Side, chain: Chain) {
    var a := chain[0];
    if a.addr.family == AF_UNIX then s.unixMatches(side, a.addr)
    else if a.port != -1 && a.port != s.port(side) then false
    else a.addr.bitlen != 0 ==> exists i :: 0 <= i < |chain| && NodeMatches(s, side, chain[i])
  }

  predicate PortHolds(s: Socket, side: Side, cmp: Comparison, port: int) {
    if cmp == AtLeast then s.port(side) >= port else s.port(side) <= port
  }

  /** The meaning of a filter on a socket. */
  predicate Holds(f: Filter, s: Socket) {
    match f
    case Auto => s.autobound
    case Host(side, chain) => HostHolds(s, side, chain)
    case Port(side, cmp, port) => PortHolds(s, side, cmp, port)
    case And(l, r) => Holds(l, s) && Holds(r, s)
    case Or(l, r) => Holds(l, s) || Holds(r, s)
    case Not(g) => !Holds(g, s)
  }

  /** `run_ssfilter`: short-circuit recursion, and a do-while over the host chain. */
  method RunFilter(f: Filter, s: Socket) returns (accepted: bool)
    ensures accepted == Holds(f, s)
  {
    hide NodeMatches;
    match f
    case Auto => accepted := s.autobound;
    case Host(side, chain) =>
      var a := chain[0];
      if a.addr.family == AF_UNIX { return s.unixMatches(side, a.addr); }
      if a.port != -1 && a.port != s.port(side) { return false; }
      if a.addr.bitlen != 0 {
        var i := 0;
        while i < |chain|
          invariant 0 <= i <= |chain|
          invariant forall j :: 0 <= j < i ==> !NodeMatches(s, side, chain[j])
        {
          if NodeMatches(s, side, chain[i]) { return true; }
          i := i + 1;
        }
        return false;
      }
      accepted := true;
    case Port(Remote, AtLeast, port) => accepted := s.port(Remote) >= port;
    case Port(Remote, AtMost, port) => accepted := s.port(Remote) <= port;
    case Port(Local, AtLeast, port) => accepted := s.port(Local) >= port;
    case Port(Local, AtMost, port) => accepted := s.port(Local) <= port;
    case And(l, r) =>
      accepted := RunFilter(l, s);
      if accepted { accepted := RunFilter(r, s); }
    case Or(l, r) =>
      accepted := RunFilter(l, s);
      if !accepted { accepted := RunFilter(r, s); }
    case Not(g) =>
      accepted := RunFilter(g, s);
      accepted := !accepted;
  }

  // ------------------------------------------------------------ which sockets are accepted

  /** A higher lower bound accepts less, a higher upper bound more, and each port is between its own two bounds. */
  lemma PortBounds(side: Side, p: int, q: int, s: Socket)
    ensures p <= q && Holds(Port(side, AtLeast, q), s) ==> Holds(Port(side, AtLeast, p), s)
    ensures p <= q && Holds(Port(side, AtMost, p), s) ==> Holds(Port(side, AtMost, q), s)
    ensures Holds(And(Port(side, AtLeast, p), Port(side, AtMost, p)), s) <==> s.port(side) == p
    ensures Holds(Port(side, AtMost, p), s) <==> Holds(Not(Port(side, AtLeast, p + 1)), s)
  {
    var low, high := Port(side, AtLeast, p), Port(side, AtMost, p);
    assert Holds(And(low, high), s) <==> Holds(low, s) && Holds(high, s);
  }

  /** A host condition without address bits asks for its port alone, and for none if that is -1. */
  lemma AnyAddress(side: Side, chain: Chain, s: Socket)
    requires chain[0].addr.family != AF_UNIX && chain[0].addr.bitlen == 0
    ensures Holds(Host(side, chain), s) <==> chain[0].port == -1 || s.port(side) == chain[0].port
  {
  }

  /** An address with the word `w`, plain or mapped to IPv6. */
  predicate IsAt(a: HostAddress, w: bv32) {
    match a
    case One(word) => word == w
    case Six(x) => x[0] == w || (x[0] == 0 && x[1] == 0 && x[2] == 0xffff_0000 && x[3] == w)
  }

  /** A whole IPv4 host: exactly the sockets with its port, or any, at its address, mapped or not. */
  lemma OneHost(side: Side, h: HostCond, s: Socket)
    requires h.addr.family == AF_INET && h.addr.bitlen == 32
    ensures Holds(Host(side, [h]), s) <==>
            (h.port == -1 || h.port == s.port(side)) && IsAt(s.addr(side), WordAt(h.addr.data, 0))
  {
    var chain: Chain := [h];
    WholeMatches(s.addr(side), h.addr);
    hide Matches, IsAt, WordAt;
    assert NodeMatches(s, side, chain[0]) <==> Matches(s.addr(side), h.addr);
    hide NodeMatches;
    if NodeMatches(s, side, h) { assert NodeMatches(s, side, chain[0]); }
  }

  lemma WholeMatches(a: HostAddress, p: HostPrefix)
    requires p.family == AF_INET && p.bitlen == 32
    ensures Matches(a, p) <==> IsAt(a, WordAt(p.data, 0))
  {
    hide WordAt, AddressMatch;
    assert MAPPED == 0xffff_0000;
    hide BitWords.Swap;
    FirstWord(AddressWords(a), PrefixWords(p));
    if a.Six? { FirstWord(a.words[0 := a.words[3]], PrefixWords(p)); }
  }

  lemma FirstWord(x: Words, y: Words)
    ensures AddressMatch(x, y, 32) == 0 <==> x[0] == y[0]
  {
    assert x[..1] == [x[0]] && y[..1] == [y[0]];
  }
}
