/** The interface cache of ll_map.c: 1024 hash chains of heap nodes, against a plain map. */
module LinkMap {
  import opened Wire
  import opened Attributes

  const BUCKETS := 1024
  const ADDR_MAX := 20

  /** What a link message tells, and what the lookups can see of it. */
  datatype Link = Link(typ: nat, flags: u32, alen: nat, addr: seq<byte>, name: string)

  /** `idx & (IDXMAP_SIZE - 1)`. */
  function Bucket(i: u32): (h: nat)
    ensures h < BUCKETS
  {
    i % BUCKETS
  }

  /** The record of a link message; of its address only the first 20 bytes are kept. */
  function Record(typ: nat, flags: u32, address: Option<seq<byte>>, name: string): Link {
    match address
    case None => Link(typ, flags, 0, [], name)
    case Some(a) => Link(typ, flags, |a|, a[..Min(|a|, 20)], name)
  }

  /** `struct ll_cache`. */
  class Node {
    const index: u32
    var next: Node?
    var typ: nat
    var flags: u32
    var alen: nat
    var addr: seq<byte>
    var name: string

    constructor (index: u32)
      ensures this.index == index && next == null && |addr| == ADDR_MAX
    {
      this.index := index;
      next := null;
      typ, flags, alen, name := 0, 0, 0, "";
      addr := seq(ADDR_MAX, _ => 0);
    }

    /** The part of the node lookups can see: address bytes past `alen` may be stale. */
    ghost function View(): Link
      reads this
    {
      Link(typ, flags, alen, addr[..Min(alen, |addr|)], name)
    }

    /** The field stores at the end of `ll_remember_index`. */
    method Store(typ: nat, flags: u32, address: Option<seq<byte>>, name: string)
      requires |addr| == ADDR_MAX
      modifies this`typ, this`flags, this`alen, this`addr, this`name
      ensures |addr| == ADDR_MAX && View() == Record(typ, flags, address, name)
    {
      this.typ, this.flags, this.name := typ, flags, name;
      match address
      case None =>
        alen := 0;
        addr := seq(ADDR_MAX, _ => 0);
      case Some(a) =>
        alen := |a|;
        var n := Min(|a|, ADDR_MAX);
        addr := a[..n] + addr[n..];
        assert addr[..n] == a[..n];
    }
  }

  class Cache {
    const heads: array<Node?>
    ghost var chains: seq<seq<Node>>
    ghost var repr: set<Node>
    ghost var model: map<u32, Link>
    ghost var place: map<u32, nat>

    /** Node `k` of chain `h`, or the null that ends it. */
    ghost function At(h: nat, k: nat): Node?
      reads this
      requires h < |chains|
    {
      if k < |chains[h]| then chains[h][k] else null
    }

    /** Node `k` of chain `h` is linked to its successor, belongs there, occurs once, and shows the map's record. */
    ghost predicate NodeOk(h: nat, k: nat)
      reads this, repr
      requires h < |chains| && k < |chains[h]|
    {
      var n := chains[h][k];
      n in repr && n.next == At(h, k + 1) && |n.addr| == ADDR_MAX && Bucket(n.index) == h &&
      n.index in place && place[n.index] == k && n.index in model && model[n.index] == n.View()
    }

    /** Every index of the map sits in its own bucket. */
    ghost predicate KeyOk(i: u32)
      reads this
      requires |chains| == BUCKETS
    {
      i in place ==> place[i] < |chains[Bucket(i)]| && chains[Bucket(i)][place[i]].index == i
    }

    /** The chains are acyclic and null-terminated, and together hold exactly the map. */
    ghost predicate Valid()
      reads this, heads, repr
    {
      heads.Length == BUCKETS == |chains| && model.Keys == place.Keys &&
      (forall h :: 0 <= h < BUCKETS ==> heads[h] == At(h, 0)) &&
      (forall h, k :: 0 <= h < BUCKETS && 0 <= k < |chains[h]| ==> NodeOk(h, k)) &&
      (forall i :: i in place ==> KeyOk(i))
    }

    constructor ()
      ensures Valid() && model == map[] && fresh(heads) && repr == {}
    {
      heads := new Node?[BUCKETS](_ => null);
      chains := seq(BUCKETS, _ => []);
      repr := {};
      model, place := map[], map[];
    }

    /** The search loop of all the lookups: the node for `idx`, and the one before it or the last of the chain. */
    method Find(idx: u32) returns (prev: Node?, im: Node?, ghost k: nat)
      requires Valid()
      ensures im == null <==> idx !in model
      ensures k <= |chains[Bucket(idx)]| && im == At(Bucket(idx), k)
      ensures im != null ==> im.index == idx
      ensures prev == if k == 0 then null else chains[Bucket(idx)][k - 1]
      ensures (prev != null ==> prev in repr) && (im != null ==> im in repr)
    {
      var h := Bucket(idx);
      k := 0;
      prev, im := null, heads[h];
      assert idx in place ==> KeyOk(idx);
      while im != null && im.index != idx
        invariant 0 <= k <= |chains[h]| && im == At(h, k)
        invariant prev == if k == 0 then null else chains[h][k - 1]
        invariant prev != null ==> prev in repr
        invariant idx in place ==> k <= place[idx]
        decreases |chains[h]| - k
      {
        assert NodeOk(h, k);
        prev, im := im, im.next;
        k := k + 1;
      }
      if im != null { assert NodeOk(h, k); }
    }

    /** The node's fields are overwritten. */
    method Overwrite(im: Node, h: nat, ghost k: nat, typ: nat, flags: u32, address: Option<seq<byte>>, name: string)
      requires Valid() && h < BUCKETS && k < |chains[h]| && chains[h][k] == im
      modifies this`model, im
      ensures Valid() && model == old(model)[im.index := Record(typ, flags, address, name)]
    {
      assert NodeOk(h, k);
      im.Store(typ, flags, address, name);
      model := model[im.index := Record(typ, flags, address, name)];
      forall h', k' | 0 <= h' < BUCKETS && 0 <= k' < |chains[h']| ensures NodeOk(h', k') {
        assert old(NodeOk(h', k'));
      }
      assert forall i :: i in place ==> old(KeyOk(i)) && KeyOk(i);
    }

    /** The first node of a chain goes into the head slot. */
    method AppendFirst(im: Node, h: nat)
      requires Valid() && h < BUCKETS && Bucket(im.index) == h && im.index !in model
      requires im !in repr && im.next == null && |im.addr| == ADDR_MAX
      requires |chains[h]| == 0
      modifies this`chains, this`repr, this`model, this`place, heads
      ensures Valid() && repr == old(repr) + {im} && model == old(model)[im.index := im.View()]
      ensures chains == old(chains)[h := old(chains)[h] + [im]]
    {
      hide Bucket;
      heads[h] := im;
      chains := chains[h := chains[h] + [im]];
      repr := repr + {im};
      model := model[im.index := im.View()];
      place := place[im.index := |chains[h]| - 1];
      forall h', k | 0 <= h' < BUCKETS && 0 <= k < |chains[h']| ensures NodeOk(h', k) {
        if h' != h {
          assert old(NodeOk(h', k));
        }
      }
      forall i | i in place ensures KeyOk(i) {
        if i != im.index { assert old(KeyOk(i)); }
      }
    }

    /** A later one goes behind the last node. */
    method AppendAfter(prev: Node, im: Node, h: nat)
      requires Valid() && h < BUCKETS && Bucket(im.index) == h && im.index !in model
      requires im !in repr && im.next == null && |im.addr| == ADDR_MAX
      requires |chains[h]| > 0 && prev == chains[h][|chains[h]| - 1]
      modifies this`chains, this`repr, this`model, this`place, prev`next
      ensures Valid() && repr == old(repr) + {im} && model == old(model)[im.index := im.View()]
      ensures chains == old(chains)[h := old(chains)[h] + [im]]
    {
      hide Bucket;
      assert NodeOk(h, |chains[h]| - 1);
      prev.next := im;
      chains := chains[h := chains[h] + [im]];
      repr := repr + {im};
      model := model[im.index := im.View()];
      place := place[im.index := |chains[h]| - 1];
      forall h', k | 0 <= h' < BUCKETS && 0 <= k < |chains[h']| ensures NodeOk(h', k) {
        if h' != h || k < |chains[h]| - 1 {
          assert old(NodeOk(h', k));
          if chains[h'][k] == prev { assert h' == h && k == |chains[h]| - 2; }
          assert chains[h'][k].View() == old(chains[h'][k].View());
        }
      }
      forall i | i in place ensures KeyOk(i) {
        if i != im.index { assert old(KeyOk(i)); }
      }
    }

    /** A new node for an index that has none, at the end of its chain. */
    method Insert(prev: Node?, index: u32) returns (im: Node)
      requires Valid() && index !in model
      requires prev != null ==> prev in repr
      requires var c := chains[Bucket(index)]; prev == if |c| == 0 then null else c[|c| - 1]
      modifies this, heads, repr
      ensures Valid() && fresh(im) && im.index == index && repr == old(repr) + {im}
      ensures chains == old(chains)[Bucket(index) := old(chains)[Bucket(index)] + [im]]
      ensures model.Keys == old(model).Keys + {index} && model == old(model)[index := model[index]]
    {
      hide Bucket, NodeOk, KeyOk;
      im := new Node(index);
      if prev == null { AppendFirst(im, Bucket(index)); } else { AppendAfter(prev, im, Bucket(index)); }
    }

    /**
     * `ll_remember_index` for a link message that names its interface; `memory` says whether
     * `malloc` succeeds. The new map is the old one with this record, or unchanged without memory.
     */
    method Remember(index: u32, typ: nat, flags: u32, address: Option<seq<byte>>, name: string, memory: bool)
      requires Valid()
      modifies this, heads, repr
      ensures Valid() && fresh(repr - old(repr))
      ensures model == if index in old(model) || memory
                       then old(model)[index := Record(typ, flags, address, name)] else old(model)
    {
      hide Bucket, NodeOk, KeyOk, Record;
      var prev, im, k := Find(index);
      if im == null {
        if !memory { return; }
        im := Insert(prev, index);
      }
      Overwrite(im, Bucket(index), k, typ, flags, address, name);
    }

    /** `ll_index_to_type`. */
    method IndexToType(idx: u32) returns (typ: int)
      requires Valid()
      ensures typ == if idx != 0 && idx in model then model[idx].typ else -1
    {
      if idx == 0 { return -1; }
      var _, im, k := Find(idx);
      if im == null { return -1; }
      assert NodeOk(Bucket(idx), k);
      typ := im.typ;
    }

    /** `ll_index_to_flags`. */
    method IndexToFlags(idx: u32) returns (flags: u32)
      requires Valid()
      ensures flags == if idx != 0 && idx in model then model[idx].flags else 0
    {
      if idx == 0 { return 0; }
      var _, im, k := Find(idx);
      if im == null { return 0; }
      assert NodeOk(Bucket(idx), k);
      flags := im.flags;
    }

    /** `ll_idx_n2a`: `*` for index 0, the name if known, and a generated one otherwise. */
    method IndexToName(idx: u32, generated: u32 -> string) returns (name: string)
      requires Valid()
      ensures name == if idx == 0 then "*" else if idx in model then model[idx].name else generated(idx)
    {
      if idx == 0 { return "*"; }
      var _, im, k := Find(idx);
      if im == null { return generated(idx); }
      assert NodeOk(Bucket(idx), k);
      name := im.name;
    }

    /** `ll_index_to_addr`: bytes that an earlier, longer address left behind are never returned. */
    method IndexToAddr(idx: u32, room: nat) returns (addr: seq<byte>)
      requires Valid()
      ensures addr == if idx != 0 && idx in model then model[idx].addr[..Min(room, |model[idx].addr|)] else []
    {
      if idx == 0 { return []; }
      var _, im, k := Find(idx);
      if im == null { return []; }
      assert NodeOk(Bucket(idx), k);
      var n := Min(Min(room, ADDR_MAX), im.alen);
      addr := im.addr[..n];
    }
  }

  // ----------------------------------------------------------- runs of messages

  /**
   * A link message as the cache sees it; without a name, or of another type, it is skipped. `memory`
   * says whether a node could be allocated for it.
   */
  datatype LinkMessage = LinkMessage(
    newLink: bool, index: u32, typ: nat, flags: u32, address: Option<seq<byte>>, name: Option<string>, memory: bool)

  predicate Accepted(m: LinkMessage) { m.newLink && m.name.Some? }

  const RTM_NEWLINK := 16
  const IFLA_ADDRESS: u16 := 1
  const IFLA_IFNAME: u16 := 3

  /** The C string in memory. */
  function Name(b: seq<byte>): string {
    if b == [] || b[0] == 0 then "" else [b[0] as char] + Name(b[1..])
  }

  /** The payload of a slot's attribute. */
  function Payload(n: seq<byte>, s: nat): seq<byte>
    requires s + 4 <= |n|
  {
    n[s + 4..if 4 <= Get16(n, s) <= |n| - s then s + Get16(n, s) else |n|]
  }

  /** What `ll_remember_index` takes from a message: `ifinfomsg`, then the address and the name. */
  function ReadLink(n: seq<byte>, memory: bool): LinkMessage
    requires |n| >= 32
  {
    var v := Visited(n, 32, Get32(n, 0) - 32);
    var address, name := Slot(n, v, IFLA_ADDRESS), Slot(n, v, IFLA_IFNAME);
    LinkMessage(
      Get16(n, 4) == RTM_NEWLINK, Get32(n, 20), Get16(n, 18), Get32(n, 24),
      if address.None? then None else Some(Payload(n, address.value)),
      if name.None? then None else Some(Name(n[name.value + 4..])), memory)
  }

  /** The headers of a link message with `len` bytes of attributes; `rest` are the fields nobody reads. */
  function LinkHeaders(len: nat, typ: u16, rest: seq<byte>, device: u16, index: u32, flags: u32, change: u32)
    : (h: seq<byte>)
    requires |rest| == 12
    ensures |h| == 32
  {
    Le32(32 + len) + Le16(typ) + rest + Le16(device) + Le32(index) + Le32(flags) + Le32(change)
  }

  lemma LinkFields(
    n: seq<byte>, len: nat, typ: u16, rest: seq<byte>, device: u16, index: u32, flags: u32, change: u32)
    requires |rest| == 12 && LinkHeaders(len, typ, rest, device, index, flags, change) <= n && 32 + len < U32_MOD
    ensures Get32(n, 0) == 32 + len && Get16(n, 4) == typ && Get16(n, 18) == device
    ensures Get32(n, 20) == index && Get32(n, 24) == flags
  {
    hide Le16, Le32;
    var h := LinkHeaders(len, typ, rest, device, index, flags, change);
    assert n[0..4] == h[0..4] == Le32(32 + len);
    assert n[4..6] == h[4..6] == Le16(typ);
    assert n[18..20] == h[18..20] == Le16(device);
    assert n[20..24] == h[20..24] == Le32(index);
    assert n[24..28] == h[24..28] == Le32(flags);
    Get32OfLe32(n, 0, 32 + len);
    Get16OfLe16(n, 4, typ);
    Get16OfLe16(n, 18, device);
    Get32OfLe32(n, 20, index);
    Get32OfLe32(n, 24, flags);
  }

  lemma {:induction false} NameOf(text: seq<byte>, rest: seq<byte>)
    requires 0 !in text
    ensures |Name(text + [0] + rest)| == |text|
    ensures forall i :: 0 <= i < |text| ==> Name(text + [0] + rest)[i] == text[i] as char
  {
    var b := text + [0] + rest;
    if text != [] {
      assert b[1..] == text[1..] + [0] + rest && b[0] == text[0];
      NameOf(text[1..], rest);
    }
  }

  lemma NamePlace(n: seq<byte>, s: nat, text: seq<byte>)
    requires s + 4 <= |n| && Shows(n, s, Leaf(3, text + [0])) && 0 !in text
    ensures Name(n[s + 4..]) == Name(text + [0])
  {
    var rest := n[s + 5 + |text|..];
    assert n[s + 4..] == n[s + 4..s + 5 + |text|] + rest;
    NameOf(text, rest);
    NameOf(text, []);
    assert text + [0] + [] == text + [0];
    assert Name(text + [0] + rest) == Name(text + [0]);
  }

  /**
   * A link message by its parts: RTM_NEWLINK (16) with a name (attribute 3) is accepted, with device type,
   * index and flags from their places and the first address (attribute 1); nothing else is.
   */
  lemma LinkRead(
    n: seq<byte>, attrs: seq<Attr>, typ: u16, rest: seq<byte>, device: u16, index: u32, flags: u32, change: u32,
    address: Option<seq<byte>>, name: Option<seq<byte>>, memory: bool)
    requires |rest| == 12 && 32 + Size(attrs) <= |n| < U32_MOD && Stored(n, 32, attrs)
    requires LinkHeaders(Size(attrs), typ, rest, device, index, flags, change) <= n
    requires FirstData(attrs, 1, address) && (name.Some? ==> 0 !in name.value)
    requires FirstData(attrs, 3, if name.None? then None else Some(name.value + [0]))
    ensures ReadLink(n, memory) ==
            LinkMessage(typ == 16, index, device, flags, address,
                        if name.None? then None else Some(Name(name.value + [0])), memory)
    ensures Accepted(ReadLink(n, memory)) <==> typ == 16 && name.Some?
  {
    hide Stored, FirstData, Get16, Get32, Slot, Visited, Name, Payload;
    LinkFields(n, Size(attrs), typ, rest, device, index, flags, change);
    hide LinkHeaders;
    FirstShown(n, 32, attrs, 1, address);
    FirstShown(n, 32, attrs, 3, if name.None? then None else Some(name.value + [0]));
    var v := Visited(n, 32, Size(attrs));
    if address.Some? { PayloadShown(n, Slot(n, v, 1).value, address.value); }
    if name.Some? { NamePlace(n, Slot(n, v, 3).value, name.value); }
  }

  lemma PayloadShown(n: seq<byte>, s: nat, data: seq<byte>)
    requires s + 4 <= |n| && Shows(n, s, Leaf(1, data))
    ensures Payload(n, s) == data
  {
  }

  function RecordOf(m: LinkMessage): Link
    requires Accepted(m)
  {
    Record(m.typ, m.flags, m.address, m.name.value)
  }

  /** The plain map: the latest record of every index that an accepted message found or made a node for. */
  function Latest(msgs: seq<LinkMessage>): map<u32, Link> {
    if msgs == [] then map[]
    else
      var before, m := Latest(msgs[..|msgs| - 1]), msgs[|msgs| - 1];
      if Accepted(m) && (m.index in before || m.memory) then before[m.index := RecordOf(m)] else before
  }

  /** Messages of other types, and those without a name, might as well not have come. */
  lemma {:induction false} SkippedAnywhere(a: seq<LinkMessage>, m: LinkMessage, b: seq<LinkMessage>)
    requires !m.newLink || m.name.None?
    ensures Latest(a + [m] + b) == Latest(a + b)
    decreases |b|
  {
    hide RecordOf;
    if b == [] {
      assert a + [m] + b == a + [m] && a + b == a && (a + [m])[..|a|] == a;
    } else {
      var c, d, n := a + [m] + b, a + b, |b| - 1;
      assert c[..|c| - 1] == a + [m] + b[..n] && d[..|d| - 1] == a + b[..n];
      SkippedAnywhere(a, m, b[..n]);
    }
  }

  /** Message `k` finds a node: an accepted message of its index, up to `k`, had memory for one. */
  ghost predicate Takes(msgs: seq<LinkMessage>, k: nat) {
    k < |msgs| && Accepted(msgs[k]) && Made(msgs, k, msgs[k].index)
  }

  ghost predicate Made(msgs: seq<LinkMessage>, k: nat, i: u32)
    requires k < |msgs|
  {
    exists j :: 0 <= j <= k && Accepted(msgs[j]) && msgs[j].index == i && msgs[j].memory
  }

  /** Message `k` is the last accepted one of its index, and took effect. */
  ghost predicate LastOf(msgs: seq<LinkMessage>, k: nat) {
    Takes(msgs, k) && forall l :: k < l < |msgs| && Accepted(msgs[l]) ==> msgs[l].index != msgs[k].index
  }

  /** An index is known exactly when some accepted message had memory for it. */
  lemma {:induction false} LatestKnows(msgs: seq<LinkMessage>, i: u32)
    ensures i in Latest(msgs) <==> msgs != [] && Made(msgs, |msgs| - 1, i)
  {
    hide RecordOf;
    if msgs != [] {
      var n := |msgs| - 1;
      LatestKnows(msgs[..n], i);
      assert forall j :: 0 <= j < n ==> msgs[..n][j] == msgs[j];
      if n > 0 && Made(msgs[..n], n - 1, i) {
        var j :| 0 <= j <= n - 1 && Accepted(msgs[..n][j]) && msgs[..n][j].index == i && msgs[..n][j].memory;
        assert Accepted(msgs[j]) && msgs[j].index == i && msgs[j].memory;
      }
      if Made(msgs, n, i) {
        var j :| 0 <= j <= n && Accepted(msgs[j]) && msgs[j].index == i && msgs[j].memory;
        if j < n { assert Accepted(msgs[..n][j]) && msgs[..n][j].index == i && msgs[..n][j].memory; }
      }
    }
  }

  /** The last accepted message of a known index decides its record, whatever came before. */
  lemma {:induction false} LatestWins(msgs: seq<LinkMessage>, k: nat)
    requires LastOf(msgs, k)
    ensures msgs[k].index in Latest(msgs) && Latest(msgs)[msgs[k].index] == RecordOf(msgs[k])
  {
    hide RecordOf;
    var n := |msgs| - 1;
    LatestKnows(msgs, msgs[k].index);
    var j :| 0 <= j <= k && Accepted(msgs[j]) && msgs[j].index == msgs[k].index && msgs[j].memory;
    assert Made(msgs, n, msgs[k].index);
    if k < n {
      assert msgs[..n][j] == msgs[j] && msgs[..n][k] == msgs[k] && Made(msgs[..n], k, msgs[k].index);
      LatestWins(msgs[..n], k);
    } else {
      LatestKnows(msgs[..n], msgs[k].index);
      if j < n { assert msgs[..n][j] == msgs[j] && Made(msgs[..n], n - 1, msgs[k].index); }
    }
  }

  /** Every known index comes from its last accepted message. */
  lemma {:induction false} LatestKnown(msgs: seq<LinkMessage>, i: u32) returns (k: nat)
    requires i in Latest(msgs)
    ensures LastOf(msgs, k) && msgs[k].index == i
  {
    hide RecordOf;
    k := |msgs| - 1;
    LatestKnows(msgs, i);
    if !(Accepted(msgs[k]) && msgs[k].index == i) {
      var n := k;
      k := LatestKnown(msgs[..n], i);
      assert msgs[..n][k] == msgs[k];
      assert forall l :: 0 <= l < n ==> msgs[..n][l] == msgs[l];
      var j :| 0 <= j <= k && Accepted(msgs[..n][j]) && msgs[..n][j].index == i && msgs[..n][j].memory;
      assert Accepted(msgs[j]) && msgs[j].index == i && msgs[j].memory && Made(msgs, k, i);
    }
  }

  /** The cache after any sequence of link messages: its lookups answer from the plain map. */
  method RememberAll(msgs: seq<LinkMessage>) returns (c: Cache)
    ensures c.Valid() && c.model == Latest(msgs)
  {
    c := new Cache();
    var i := 0;
    while i < |msgs|
      invariant 0 <= i <= |msgs| && c.Valid() && c.model == Latest(msgs[..i])
      invariant fresh(c) && fresh(c.heads) && fresh(c.repr)
    {
      assert msgs[..i + 1][..i] == msgs[..i];
      var m := msgs[i];
      if Accepted(m) { c.Remember(m.index, m.typ, m.flags, m.address, m.name.value, m.memory); }
      i := i + 1;
    }
    assert msgs[..i] == msgs;
  }
}
