/** Neighbour messages of rtnetlink as `arpd` reads and writes them: header, `ndmsg`, attributes. */
module NeighWire {
  import opened Wire
  import opened Attributes

  const RTM_NEWNEIGH := 28
  const RTM_GETNEIGH := 30
  const NLM_F_REQUEST := 1
  const RTN_UNICAST: byte := 1
  const AF_INET: byte := 2
  const NDA_DST: u16 := 1
  const NDA_LLADDR: u16 := 2

  const NUD_INCOMPLETE := 0x01
  const NUD_STALE := 0x04
  const NUD_PROBE := 0x10
  const NUD_FAILED := 0x20
  const NUD_NOARP := 0x40

  const NDM_SIZE := 28

  /** A flag of one bit. */
  predicate Has(bits: nat, flag: nat)
    requires flag > 0
  {
    bits / flag % 2 == 1
  }

  /** What `do_one_request` reads of a neighbour message; `behind` are the bytes after the address. */
  datatype NeighMsg = NeighMsg(
    typ: u16, request: bool, family: byte, iface: u32, state: u16, flags: byte, kind: byte,
    dst: Option<u32>, lladdr: Option<seq<byte>>, behind: seq<byte>)

  /** The attributes of a message of `len` bytes, from `parse_rtattr`. */
  function AttrAt(n: seq<byte>, len: int, t: u16): (s: Option<nat>)
    ensures s.Some? ==> s.value + 4 <= |n|
  {
    Slot(n, Visited(n, NDM_SIZE, len), t)
  }

  /** The destination, of which four bytes are copied whatever its length. */
  function Destination(n: seq<byte>, len: int): Option<u32> {
    var s := AttrAt(n, len, NDA_DST);
    if s.None? || s.value + 8 > |n| then None else Some(Get32(n, s.value + 4))
  }

  /** Where the link-layer address ends; `None` when there is none in the message. */
  function AddressEnd(n: seq<byte>, len: int): (e: Option<nat>)
    ensures e.Some? ==> AttrAt(n, len, NDA_LLADDR).Some? && AttrAt(n, len, NDA_LLADDR).value + 4 <= e.value <= |n|
  {
    var s := AttrAt(n, len, NDA_LLADDR);
    if s.None? || !(4 <= Get16(n, s.value) <= |n| - s.value) then None else Some(s.value + Get16(n, s.value))
  }

  /**
   * A message at the start of `n` as `do_one_request` takes it apart; `None` is the error of one that is
   * shorter than its headers.
   */
  function ReadNeigh(n: seq<byte>): Option<NeighMsg>
    requires |n| >= 16
  {
    var typ, len := Get16(n, 4), Get32(n, 0) - NDM_SIZE;
    if typ != RTM_GETNEIGH && typ != RTM_NEWNEIGH then Some(NeighMsg(typ, false, 0, 0, 0, 0, 0, None, None, []))
    else if len < 0 || |n| < NDM_SIZE then None
    else
      var e := AddressEnd(n, len);
      Some(NeighMsg(
             typ, Has(Get16(n, 6), NLM_F_REQUEST), n[16], Get32(n, 20), Get16(n, 24), n[26], n[27],
             Destination(n, len),
             if e.None? then None else Some(n[AttrAt(n, len, NDA_LLADDR).value + 4..e.value]),
             if e.None? then [] else n[e.value..]))
  }

  // ------------------------------------------------------------ from the parts

  /** The fields of the two headers that are read; `ids` are the sequence number and the port. */
  datatype Fields = Fields(
    typ: u16, flags: u16, ids: seq<byte>, family: byte, iface: u32, state: u16, ndmFlags: byte, kind: byte)

  /** The headers of a message with `len` bytes of attributes. */
  function Headers(f: Fields, len: nat): (h: seq<byte>)
    requires |f.ids| == 8
    ensures |h| == 28
  {
    Le32(28 + len) + Le16(f.typ) + Le16(f.flags) + f.ids +
    [f.family, 0, 0, 0] + Le32(f.iface) + Le16(f.state) + [f.ndmFlags, f.kind]
  }

  /** A message with these headers and attributes, of which `dst` and `lladdr` are the first of their types. */
  ghost predicate IsNeigh(
    n: seq<byte>, f: Fields, attrs: seq<Attr>, dst: Option<seq<byte>>, lladdr: Option<seq<byte>>)
  {
    |f.ids| == 8 && NDM_SIZE + Size(attrs) <= |n| < U32_MOD &&
    Headers(f, Size(attrs)) <= n && Stored(n, NDM_SIZE, attrs) &&
    FirstData(attrs, 1, dst) && FirstData(attrs, 2, lladdr) && (dst.Some? ==> |dst.value| == 4)
  }

  predicate EndsWith(n: seq<byte>, t: seq<byte>) { |t| <= |n| && n[|n| - |t|..] == t }

  lemma HeaderFields(n: seq<byte>, f: Fields, len: nat)
    requires |f.ids| == 8 && Headers(f, len) <= n && 28 + len < U32_MOD
    ensures Get32(n, 0) == 28 + len && Get16(n, 4) == f.typ && Get16(n, 6) == f.flags && n[16] == f.family
    ensures Get32(n, 20) == f.iface && Get16(n, 24) == f.state && n[26] == f.ndmFlags && n[27] == f.kind
  {
    hide Le16, Le32;
    var h := Headers(f, len);
    assert n[0..4] == h[0..4] == Le32(28 + len);
    assert n[4..6] == h[4..6] == Le16(f.typ);
    assert n[6..8] == h[6..8] == Le16(f.flags);
    assert n[20..24] == h[20..24] == Le32(f.iface);
    assert n[24..26] == h[24..26] == Le16(f.state);
    assert h[16] == f.family && h[26] == f.ndmFlags && h[27] == f.kind;
    Get32OfLe32(n, 0, 28 + len);
    Get16OfLe16(n, 4, f.typ);
    Get16OfLe16(n, 6, f.flags);
    Get32OfLe32(n, 20, f.iface);
    Get16OfLe16(n, 24, f.state);
  }

  lemma DestinationRead(n: seq<byte>, attrs: seq<Attr>, dst: Option<seq<byte>>)
    requires NDM_SIZE + Size(attrs) <= |n| && Stored(n, NDM_SIZE, attrs) && FirstData(attrs, 1, dst)
    requires dst.Some? ==> |dst.value| == 4
    ensures Destination(n, Size(attrs)) == if dst.None? then None else Some(Get32(dst.value, 0))
  {
    hide Stored, FirstData, Slot, Visited;
    FirstShown(n, NDM_SIZE, attrs, 1, dst);
    if dst.Some? {
      var s := AttrAt(n, Size(attrs), 1).value;
      assert n[s + 4] == n[s + 4..s + 8][0] && n[s + 5] == n[s + 4..s + 8][1];
      assert n[s + 6] == n[s + 4..s + 8][2] && n[s + 7] == n[s + 4..s + 8][3];
    }
  }

  lemma AddressRead(n: seq<byte>, attrs: seq<Attr>, lladdr: Option<seq<byte>>)
    requires NDM_SIZE + Size(attrs) <= |n| && Stored(n, NDM_SIZE, attrs) && FirstData(attrs, 2, lladdr)
    ensures var e := AddressEnd(n, Size(attrs));
            e.Some? == lladdr.Some? &&
            (e.Some? ==> n[AttrAt(n, Size(attrs), 2).value + 4..e.value] == lladdr.value)
  {
    hide Stored, FirstData, Slot, Visited;
    FirstShown(n, NDM_SIZE, attrs, 2, lladdr);
  }

  lemma RequestBit(flags: nat)
    ensures Has(flags, NLM_F_REQUEST) <==> flags % 2 == 1
  {
  }

  /** Reading a message by its parts: every field, the first destination and the first address. */
  lemma NeighRead(n: seq<byte>, f: Fields, attrs: seq<Attr>, dst: Option<seq<byte>>, lladdr: Option<seq<byte>>)
    requires IsNeigh(n, f, attrs, dst, lladdr)
    ensures ReadNeigh(n).Some?
    ensures var m := ReadNeigh(n).value;
            if f.typ != 28 && f.typ != 30 then m.typ == f.typ
            else
              m.(behind := []) ==
              NeighMsg(f.typ, f.flags % 2 == 1, f.family, f.iface, f.state, f.ndmFlags, f.kind,
                       if dst.None? then None else Some(Get32(dst.value, 0)), lladdr, []) &&
              (lladdr.Some? ==> EndsWith(n, lladdr.value + m.behind))
  {
    hide Stored, Get16, Get32, AttrAt, FirstData, Destination, AddressEnd, Has;
    HeaderFields(n, f, Size(attrs));
    RequestBit(f.flags);
    hide Headers;
    DestinationRead(n, attrs, dst);
    AddressRead(n, attrs, lladdr);
    hide Size;
  }

  // ------------------------------------------------------------ the answer

  const NO_IDS: seq<byte> := [0, 0, 0, 0, 0, 0, 0, 0]

  function AnswerFields(iface: u32): Fields {
    Fields(RTM_NEWNEIGH, NLM_F_REQUEST, NO_IDS, AF_INET, iface, NUD_STALE, 0, RTN_UNICAST)
  }

  /** `respond_to_kernel`: the bytes sent, from a buffer with `spare` behind the headers. */
  function Answer(iface: u32, addr: u32, lla: seq<byte>, spare: seq<byte>): Option<seq<byte>>
    requires |spare| == 256
  {
    var f := AnswerFields(iface);
    var m1 := AddAttr(Message(Headers(f, 0) + spare, 28), 284, NDA_DST, Le32(addr));
    if m1.None? then None
    else
      var m2 := AddAttr(m1.value, 284, NDA_LLADDR, lla);
      if m2.None? then None
      else Some(Headers(f, m2.value.len - 28) + m2.value.buf[28..m2.value.len])
  }

  lemma AnswerAttrs(d: seq<byte>, lla: seq<byte>)
    requires |d| == 4
    ensures var attrs := [Leaf(1, d), Leaf(2, lla)];
            Size(attrs) == 8 + Align4(4 + |lla|) && FirstData(attrs, 1, Some(d)) && FirstData(attrs, 2, Some(lla))
  {
    var attrs := [Leaf(1, d), Leaf(2, lla)];
    assert attrs[1..] == [attrs[1]] && attrs[1..][1..] == [];
    assert Align4(8) == 8;
    hide Align4;
    assert Size(attrs[1..]) == SizeOne(attrs[1]);
    assert attrs[0] == Leaf(1, d) && attrs[1] == Leaf(2, lla);
  }

  /** Both attributes lie behind each other in the buffer of the answer. */
  lemma AnswerStored(m: Message, d: seq<byte>, lla: seq<byte>)
    requires m.len == 28 && |m.buf| == 284 && |d| == 4 && AddAttr(m, 284, 1, d).Some?
    requires AddAttr(AddAttr(m, 284, 1, d).value, 284, 2, lla).Some?
    ensures var r := AddAttr(AddAttr(m, 284, 1, d).value, 284, 2, lla).value;
            r.len == 36 + Align4(4 + |lla|) <= |r.buf| && Stored(r.buf, 28, [Leaf(1, d), Leaf(2, lla)])
  {
    var a, b := Leaf(1, d), Leaf(2, lla);
    assert Align4(28) == 28 && Align4(8) == 8 && Align4(36) == 36;
    assert SizeOne(a) == 8;
    hide AddAttr, Align4, StoredOne, Same;
    var m1 := AddAttr(m, 284, 1, d).value;
    AddAttrStores(m, 284, 1, d);
    AddAttrStores(m1, 284, 2, lla);
    var r := AddAttr(m1, 284, 2, lla).value;
    SamePart(m1.buf, r.buf, 0, 36, 28, 36);
    StoredOneFrame(m1.buf, r.buf, 28, a);
    assert [a, b][1..] == [b] && [b][1..] == [];
    assert Stored(r.buf, 36, [b]);
  }

  lemma AnswerSome(iface: u32, addr: u32, lla: seq<byte>, spare: seq<byte>)
    requires |spare| == 256
    ensures Answer(iface, addr, lla, spare).Some? <==> |lla| <= 244
  {
    AnswerFits(lla);
    assert Align4(28) == 28 && Align4(8) == 8 && Align4(36) == 36;
    hide Align4, Headers, AddAttr, Le32;
  }

  /** What the kernel is told: a stale neighbour with the destination and the address, at any length that fits. */
  lemma AnswerTells(iface: u32, addr: u32, lla: seq<byte>, spare: seq<byte>)
    requires |spare| == 256 && |lla| <= 244
    ensures Answer(iface, addr, lla, spare).Some?
    ensures var r := ReadNeigh(Answer(iface, addr, lla, spare).value);
            r.Some? && r.value.(behind := []) == NeighMsg(28, true, 2, iface, 4, 0, 1, Some(addr), Some(lla), [])
  {
    hide Align4, Headers, AddAttr, ReadNeigh, Le32, Get32;
    AnswerSome(iface, addr, lla, spare);
    AnswerRead(Message(Headers(AnswerFields(iface), 0) + spare, 28), AnswerFields(iface), Le32(addr), lla);
    AddressBytes(addr);
  }

  lemma AddressBytes(addr: u32)
    ensures Get32(Le32(addr), 0) == addr
  {
    hide Le32, Get32;
    var d := Le32(addr);
    assert d[0..4] == d;
    Get32OfLe32(d, 0, addr);
  }

  lemma AnswerFits(lla: seq<byte>)
    ensures 36 + Align4(4 + |lla|) <= 284 <==> |lla| <= 244
  {
  }

  lemma AnswerRead(m: Message, f: Fields, d: seq<byte>, lla: seq<byte>)
    requires m.len == 28 && |m.buf| == 284 && |d| == 4 && |f.ids| == 8 && (f.typ == 28 || f.typ == 30)
    requires AddAttr(m, 284, 1, d).Some? && AddAttr(AddAttr(m, 284, 1, d).value, 284, 2, lla).Some?
    ensures var r := AddAttr(AddAttr(m, 284, 1, d).value, 284, 2, lla).value;
            28 <= r.len <= |r.buf| &&
            var n := ReadNeigh(Headers(f, r.len - 28) + r.buf[28..r.len]);
            n.Some? && n.value.(behind := []) ==
            NeighMsg(f.typ, f.flags % 2 == 1, f.family, f.iface, f.state, f.ndmFlags, f.kind,
                     Some(Get32(d, 0)), Some(lla), [])
  {
    hide Align4, Headers, Stored, AddAttr, FirstData, ReadNeigh, Get32;
    AnswerStored(m, d, lla);
    AnswerAttrs(d, lla);
    var r, attrs := AddAttr(AddAttr(m, 284, 1, d).value, 284, 2, lla).value, [Leaf(1, d), Leaf(2, lla)];
    var n := Headers(f, r.len - 28) + r.buf[28..r.len];
    assert HasAt(n, 28, r.buf[28..28 + Size(attrs)]);
    StoredMove(r.buf, 28, n, 28, attrs);
    NeighRead(n, f, attrs, Some(d), Some(lla));
  }
}
