/** When the head of a host chain stands for the whole chain, as the bytecode compiler takes it. */
module HostChains {
  import BitWords
  import opened Prefixes
  import opened SocketFilter

  /** The addresses that agree with `words` in their first `len` bits. */
  datatype Piece = Piece(words: Words, len: nat)

  predicate Proper(p: Piece) { p.len <= 128 }

  /** One piece lies inside another: it is at least as long and agrees with it. */
  predicate Within(q: Piece, p: Piece)
    requires Proper(q) && Proper(p)
  {
    p.len <= q.len && Agree(q.words, p.words, p.len)
  }

  predicate Under(x: Words, p: Piece)
    requires Proper(p)
  {
    Agree(x, p.words, p.len)
  }

  /** The mapped form of an IPv4 rule. */
  function MappedPiece(p: HostPrefix): (r: Piece)
    requires Parsed(p) && p.family == AF_INET
    ensures Proper(r)
  {
    Piece([0, 0, MAPPED, WordAt(p.data, 0)], 96 + p.bitlen)
  }

  function RawPiece(p: HostPrefix): (r: Piece)
    requires Parsed(p) && p.family != AF_UNIX
    ensures Proper(r)
  {
    Piece(PrefixWords(p), p.bitlen)
  }

  /** Piece `q` of a later node is inside a piece of the head `h`. */
  predicate Covered(h: HostPrefix, q: Piece)
    requires Parsed(h) && h.family != AF_UNIX && Proper(q)
  {
    Within(q, RawPiece(h)) || (h.family == AF_INET && Within(q, MappedPiece(h)))
  }

  /** Everything node `n` matches lies inside what the head `h` matches. */
  predicate Covers(h: HostPrefix, n: HostPrefix)
    requires Parsed(h) && Parsed(n) && h.family != AF_UNIX
  {
    n.family == AF_UNIX || (Covered(h, RawPiece(n)) && (n.family == AF_INET ==> Covered(h, MappedPiece(n))))
  }

  /** The head covers every node, or the interpreter never looks at the addresses. */
  predicate HeadCovers(chain: Chain) {
    var h := chain[0].addr;
    h.family == AF_UNIX || h.bitlen == 0 || forall i :: 0 <= i < |chain| ==> Covers(h, chain[i].addr)
  }

  // ------------------------------------------------------------ matching by pieces

  /** A mapped address agrees with the mapped form of a rule exactly when its last word agrees with the rule. */
  lemma MappedAgrees(x: Words, w: bv32, y: Words, bits: nat)
    requires bits <= 32 && y[0] == w
    ensures Agree(x, [0, 0, MAPPED, w], 96 + bits) <==>
            x[0] == 0 && x[1] == 0 && x[2] == MAPPED && Agree(x[0 := x[3]], y, bits)
  {
    hide BitWords.Bit, BitWords.Swap;
    var m := [0, 0, MAPPED, w];
    AgreeWords(x, m, 3);
    assert x[..3] == m[..3] <==> x[0] == 0 && x[1] == 0 && x[2] == MAPPED;
    var x' := x[0 := x[3]];
    forall j | 0 <= j < bits
      ensures AddressBit(x, 96 + j) == AddressBit(x', j) && AddressBit(m, 96 + j) == AddressBit(y, j)
    {
      BitOfWord(x, 3, j);
      BitOfWord(m, 3, j);
      BitOfWord(x', 0, j);
      BitOfWord(y, 0, j);
    }
    hide AddressBit;
    AgreeShift(x, m, x', y, bits);
  }

  lemma AgreeShift(x: Words, m: Words, x': Words, y: Words, bits: nat)
    requires bits <= 32
    requires forall j :: 0 <= j < bits ==>
               AddressBit(x, 96 + j) == AddressBit(x', j) && AddressBit(m, 96 + j) == AddressBit(y, j)
    ensures Agree(x, m, 96 + bits) <==> Agree(x, m, 96) && Agree(x', y, bits)
  {
    hide AddressBit;
    if Agree(x, m, 96) && Agree(x', y, bits) {
      forall i | 0 <= i < 96 + bits ensures AddressBit(x, i) == AddressBit(m, i) {
        if i >= 96 { assert AddressBit(x', i - 96) == AddressBit(y, i - 96); }
      }
    }
    if Agree(x, m, 96 + bits) {
      forall j | 0 <= j < bits ensures AddressBit(x', j) == AddressBit(y, j) {
        assert AddressBit(x, 96 + j) == AddressBit(m, 96 + j);
      }
    }
  }

  /** `inet2_addr_match` accepts exactly the addresses under the rule, and for IPv4 rules under its mapped form. */
  lemma MatchPieces(a: HostAddress, p: HostPrefix)
    requires Parsed(p) && p.family != AF_UNIX
    ensures Matches(a, p) <==>
            Under(AddressWords(a), RawPiece(p)) || (p.family == AF_INET && a.Six? && Under(a.words, MappedPiece(p)))
  {
    hide WordAt, AddressMatch, Agree;
    MatchAgrees(AddressWords(a), PrefixWords(p), p.bitlen);
    if p.family == AF_INET && a.Six? {
      MatchAgrees(a.words[0 := a.words[3]], PrefixWords(p), p.bitlen);
      MappedAgrees(a.words, WordAt(p.data, 0), PrefixWords(p), p.bitlen);
    }
  }

  // ------------------------------------------------------------ covering

  lemma WithinUnder(x: Words, q: Piece, p: Piece)
    requires Proper(q) && Proper(p) && Within(q, p) && Under(x, q)
    ensures Under(x, p)
  {
    hide AddressBit;
  }

  /** An address of one word is never mapped. */
  lemma OneNotMapped(w: bv32, p: HostPrefix)
    requires Parsed(p) && p.family == AF_INET
    ensures !Under([w, 0, 0, 0], MappedPiece(p))
  {
    var x: Words := [w, 0, 0, 0];
    hide WordAt;
    assert MAPPED != 0;
    MappedAgrees(x, WordAt(p.data, 0), PrefixWords(p), p.bitlen);
  }

  /** A covered node matches nothing the head does not match. */
  lemma CoversMatch(h: HostPrefix, n: HostPrefix, a: HostAddress)
    requires Parsed(h) && Parsed(n) && h.family != AF_UNIX && n.family != AF_UNIX && Covers(h, n) && Matches(a, n)
    ensures Matches(a, h)
  {
    hide Matches, Under, Within, MappedPiece, RawPiece;
    MatchPieces(a, n);
    MatchPieces(a, h);
    var x := AddressWords(a);
    var q := if Under(x, RawPiece(n)) then RawPiece(n) else MappedPiece(n);
    if Within(q, RawPiece(h)) {
      WithinUnder(x, q, RawPiece(h));
    } else {
      WithinUnder(x, q, MappedPiece(h));
      if a.One? { OneNotMapped(a.word, h); }
    }
  }

  /** An address under `q` that is under neither of two pieces of different lengths that `q` is not inside. */
  lemma EscapeBoth(q: Piece, p: Piece, r: Piece) returns (x: Words)
    requires Proper(q) && Proper(p) && Proper(r) && p.len < r.len && !Within(q, p) && !Within(q, r)
    ensures Under(x, q) && !Under(x, p) && !Under(x, r)
  {
    hide AddressBit;
    if p.len <= q.len {
      x := EscapeOne(q, r);
    } else {
      var y := Escape(q.words, p.words, q.len);
      x := Escape(y, r.words, q.len + 1);
      assert AddressBit(x, q.len) == AddressBit(y, q.len);
    }
  }

  lemma EscapeOne(q: Piece, p: Piece) returns (x: Words)
    requires Proper(q) && Proper(p) && !Within(q, p)
    ensures Under(x, q) && !Under(x, p)
  {
    hide AddressBit;
    if p.len <= q.len {
      x := q.words;
    } else {
      x := Escape(q.words, p.words, q.len);
    }
  }

  /** A piece that is not covered holds an IPv6 address the head does not match. */
  lemma EscapeHead(h: HostPrefix, q: Piece) returns (x: Words)
    requires Parsed(h) && h.family != AF_UNIX && Proper(q) && !Covered(h, q)
    ensures Under(x, q) && !Matches(Six(x), h)
  {
    hide Under, Within, PrefixWords, WordAt, Matches;
    if h.family == AF_INET {
      x := EscapeBoth(q, RawPiece(h), MappedPiece(h));
    } else {
      x := EscapeOne(q, RawPiece(h));
    }
    MatchPieces(Six(x), h);
  }

  /** A node the head does not cover matches a socket that the head does not match. */
  lemma UncoveredNode(h: HostPrefix, n: HostPrefix) returns (a: HostAddress)
    requires Parsed(h) && Parsed(n) && h.family != AF_UNIX && !Covers(h, n)
    ensures n.family != AF_UNIX && Matches(a, n) && !Matches(a, h)
  {
    hide Under, Within, Covered, Matches, RawPiece, MappedPiece;
    var q := if !Covered(h, RawPiece(n)) then RawPiece(n) else MappedPiece(n);
    var x := EscapeHead(h, q);
    a := Six(x);
    MatchPieces(a, n);
  }

  /** Testing the head alone is right for every socket exactly when the head covers the chain. */
  lemma HeadSuffices(side: Side, chain: Chain)
    ensures (forall s: Socket :: HostHolds(s, side, chain) == HostHolds(s, side, chain[..1])) <==> HeadCovers(chain)
  {
    hide Covers, Matches;
    var h, head := chain[0].addr, chain[..1];
    if HeadCovers(chain) {
      forall s: Socket ensures HostHolds(s, side, chain) == HostHolds(s, side, head) {
        HeadDecides(s, side, chain);
      }
    } else {
      var i :| 0 <= i < |chain| && !Covers(h, chain[i].addr);
      var a := UncoveredNode(h, chain[i].addr);
      var s := Socket(false, _ => chain[0].port, _ => a, (_, _) => false);
      assert NodeMatches(s, side, chain[i]) && !NodeMatches(s, side, head[0]);
      assert HostHolds(s, side, chain) && !HostHolds(s, side, head);
    }
  }

  lemma HeadDecides(s: Socket, side: Side, chain: Chain)
    requires HeadCovers(chain)
    ensures HostHolds(s, side, chain) == HostHolds(s, side, chain[..1])
  {
    hide Covers, Matches;
    var h, head := chain[0].addr, chain[..1];
    assert head[0] == chain[0];
    if h.family != AF_UNIX && h.bitlen != 0 {
      if i :| 0 <= i < |chain| && NodeMatches(s, side, chain[i]) {
        CoversMatch(h, chain[i].addr, s.addr(side));
        assert NodeMatches(s, side, head[0]) && NodeMatches(s, side, chain[0]);
      }
    }
  }

  /** A name with an IPv4 address and the same one mapped: the first stands for both. */
  lemma MappedTwin(h: HostPrefix, n: HostPrefix)
    requires h.family == AF_INET && h.bitlen == 32 && n.family == AF_INET6 && n.bitlen == 128
    requires PrefixWords(n) == [0, 0, MAPPED, WordAt(h.data, 0)]
    ensures Covers(h, n)
  {
  }

  /** A name with two IPv4 addresses: the head misses sockets of the second. */
  lemma TwoHosts(h: HostPrefix, n: HostPrefix)
    requires h.family == n.family == AF_INET && h.bitlen == n.bitlen == 32 && WordAt(h.data, 0) != WordAt(n.data, 0)
    ensures !Covers(h, n) && Matches(One(WordAt(n.data, 0)), n) && !Matches(One(WordAt(n.data, 0)), h)
  {
    hide WordAt, AddressMatch, Agree, AddressBit;
    var a := One(WordAt(n.data, 0));
    var x, y := PrefixWords(n), PrefixWords(h);
    AgreeWords(x, y, 1);
    AgreeWords(AddressWords(a), x, 1);
    AgreeWords(AddressWords(a), y, 1);
    assert x[..1] == [x[0]] && y[..1] == [y[0]] && AddressWords(a)[..1] == [x[0]];
    MatchPieces(a, n);
    MatchPieces(a, h);
  }
}
