/** The sequence numbers of a netlink handle. */
module Sequence {
  import opened Wire

  /** The 32-bit sequence counter of a netlink handle after `k` draws. */
  function Seqno(base: nat, k: nat): (r: nat)
    ensures r < U32_MOD
  {
    (base + k) % U32_MOD
  }

  lemma SeqnoTwice(a: nat, m: nat, n: nat)
    ensures Seqno(Seqno(a, m), n) == Seqno(a, m + n) && (a < U32_MOD ==> Seqno(a, 0) == a)
  {
    var b := a + m;
    assert b + n == U32_MOD * (b / U32_MOD) + (b % U32_MOD + n);
  }
}
