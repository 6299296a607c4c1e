/** Bytes, little-endian fields and 4-byte alignment, as the C structures lay them out. */
module Wire {

  type byte = x: int | 0 <= x < 256

  const U8_MOD := 0x100
  const U16_MOD := 0x1_0000
  const U32_MOD := 0x1_0000_0000

  type u32 = x: int | 0 <= x < U32_MOD

  function Min(a: nat, b: nat): nat { if a <= b then a else b }

  datatype Option<+T> = None | Some(value: T)

  /** The two bytes a `__u16` store leaves in memory; the value is cut to 16 bits. */
  function Le16(n: int): (b: seq<byte>)
    ensures |b| == 2
  {
    [n % 256, n / 256 % 256]
  }

  /** The four bytes a `__u32` (or two's complement `int`) store leaves in memory. */
  function Le32(n: int): (b: seq<byte>)
    ensures |b| == 4
  {
    Le16(n) + Le16(n / U16_MOD)
  }

  function Get16(s: seq<byte>, p: nat): (n: nat)
    requires p + 2 <= |s|
    ensures n < U16_MOD
  {
    s[p] as int + 256 * (s[p + 1] as int)
  }

  function Get32(s: seq<byte>, p: nat): (n: nat)
    requires p + 4 <= |s|
    ensures n < U32_MOD
  {
    Get16(s, p) + U16_MOD * Get16(s, p + 2)
  }

  /** Store into a 16-bit field at offset `p`. */
  function Put16(s: seq<byte>, p: nat, n: int): (r: seq<byte>)
    requires p + 2 <= |s|
    ensures |r| == |s|
  {
    s[p := n % 256][p + 1 := n / 256 % 256]
  }

  /** Reading a 16-bit field gives back what was stored, cut to 16 bits. */
  lemma Get16OfLe16(s: seq<byte>, p: nat, n: int)
    requires p + 2 <= |s|
    requires s[p..p + 2] == Le16(n)
    ensures Get16(s, p) == n % U16_MOD
  {
    assert s[p] == s[p..p + 2][0] && s[p + 1] == s[p..p + 2][1];
  }

  lemma Get16OfHasAt(s: seq<byte>, p: nat, n: nat)
    requires HasAt(s, p, Le16(n)) && n < U16_MOD
    ensures Get16(s, p) == n
  {
    assert s[p + 0] == Le16(n)[0] && s[p + 1] == Le16(n)[1];
  }

  lemma Get32OfLe32(s: seq<byte>, p: nat, n: int)
    requires p + 4 <= |s|
    requires s[p..p + 4] == Le32(n)
    ensures Get32(s, p) == n % U32_MOD
  {
    assert s[p..p + 2] == s[p..p + 4][..2] && s[p + 2..p + 4] == s[p..p + 4][2..];
    Get16OfLe16(s, p, n);
    Get16OfLe16(s, p + 2, n / U16_MOD);
  }

  /** `NLMSG_ALIGN`, `RTA_ALIGN` and `RTNH_ALIGN`: the next multiple of four. */
  function Align4(n: nat): (r: nat)
    ensures r % 4 == 0 && n <= r < n + 4
    ensures n % 4 == 0 ==> r == n
  {
    if n % 4 == 0 then n else n + 4 - n % 4
  }

  lemma Align4Plus(a: nat, n: nat)
    requires a % 4 == 0
    ensures Align4(a + n) == a + Align4(n)
  {}

  /** The two buffers agree from `lo` up to `hi`. */
  ghost predicate Same(c: seq<byte>, c': seq<byte>, lo: nat, hi: nat) {
    |c| == |c'| && hi <= |c| && forall i :: lo <= i < hi ==> c[i] == c'[i]
  }

  lemma SplitEqual<T>(s: seq<T>, t: seq<T>, n: nat)
    requires n <= |s| && n <= |t|
    ensures s == t <==> s[..n] == t[..n] && s[n..] == t[n..]
  {
    assert s == s[..n] + s[n..] && t == t[..n] + t[n..];
  }

  /** The buffer holds `t` at offset `p`. */
  ghost predicate HasAt(s: seq<byte>, p: nat, t: seq<byte>) {
    p + |t| <= |s| && forall i :: 0 <= i < |t| ==> s[p + i] == t[i]
  }

  lemma HasAtSlice(s: seq<byte>, p: nat, t: seq<byte>)
    requires HasAt(s, p, t)
    ensures p + |t| <= |s| && s[p..p + |t|] == t
  {}

  lemma HasAtSplit(s: seq<byte>, p: nat, t: seq<byte>, u: seq<byte>)
    requires HasAt(s, p, t + u)
    ensures HasAt(s, p, t) && HasAt(s, p + |t|, u)
  {
    assert forall i :: 0 <= i < |t| ==> (t + u)[i] == t[i];
    assert forall i :: 0 <= i < |u| ==> (t + u)[|t| + i] == u[i];
  }

  /** A part of copied bytes is copied along. */
  lemma HasAtPart(s: seq<byte>, p: nat, t: seq<byte>, q: nat, n: nat, k: nat, m: nat)
    requires q + n <= |t| && HasAt(s, p, t[q..q + n]) && k + m <= n
    ensures HasAt(s, p + k, t[q + k..q + k + m])
  {
    var u := t[q + k..q + k + m];
    forall i | 0 <= i < |u| ensures s[(p + k) + i] == u[i] {
      assert s[p + (k + i)] == t[q..q + n][k + i];
    }
  }

  lemma Get16Part(s: seq<byte>, p: nat, t: seq<byte>, q: nat, n: nat, k: nat)
    requires q + n <= |t| && HasAt(s, p, t[q..q + n]) && k + 2 <= n
    ensures Get16(s, p + k) == Get16(t, q + k)
  {
    assert s[p + k] == t[q..q + n][k] && s[p + (k + 1)] == t[q..q + n][k + 1];
  }

  /** `memcpy` of `t` to offset `p`. */
  function Splice(s: seq<byte>, p: nat, t: seq<byte>): (r: seq<byte>)
    requires p + |t| <= |s|
    ensures HasAt(r, p, t)
    ensures Same(s, r, 0, p) && Same(s, r, p + |t|, |s|)
  {
    s[..p] + t + s[p + |t|..]
  }

  lemma SameTrans(a: seq<byte>, b: seq<byte>, c: seq<byte>, i: nat, j: nat)
    requires Same(a, b, i, j) && Same(b, c, i, j)
    ensures Same(a, c, i, j)
  {
  }

  lemma SamePart(a: seq<byte>, b: seq<byte>, i: nat, j: nat, k: nat, l: nat)
    requires Same(a, b, i, j) && i <= k <= l <= j
    ensures Same(a, b, k, l)
  {
  }

  lemma SameSelf(b: seq<byte>, p: nat, q: nat)
    requires q <= |b|
    ensures Same(b, b, p, q)
  {
  }

  /** A 16-bit store changes two bytes, and reading them gives the value cut to 16 bits. */
  lemma Put16Cut(s: seq<byte>, p: nat, n: int)
    requires p + 2 <= |s|
    ensures Same(s, Put16(s, p, n), 0, p) && Same(s, Put16(s, p, n), p + 2, |s|)
    ensures Get16(Put16(s, p, n), p) == n % U16_MOD
  {
    var r := Put16(s, p, n);
    assert r[p..p + 2] == Le16(n);
    Get16OfLe16(r, p, n);
  }

  // ------------------------------------------------------------ stores into a buffer

  /** A `memcpy` to offset `p`. */
  method CopyTo(buf: array<byte>, p: nat, t: seq<byte>)
    requires p + |t| <= buf.Length
    modifies buf
    ensures buf[..] == Splice(old(buf[..]), p, t)
  {
    forall i | 0 <= i < |t| { buf[p + i] := t[i]; }
  }

  /** A 16-bit store at offset `p`; the value is cut to 16 bits. */
  method Store16(buf: array<byte>, p: nat, n: int)
    requires p + 2 <= buf.Length
    modifies buf
    ensures buf[..] == Put16(old(buf[..]), p, n)
  {
    buf[p], buf[p + 1] := n % 256, n / 256 % 256;
  }
}
