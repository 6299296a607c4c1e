/** Netlink attributes: the builders and parsers of libnetlink, and what they do to each other. */
module Attributes {
  import opened Wire

  type u16 = x: int | 0 <= x < 0x1_0000

  /** A message under construction: its storage and `nlmsg_len`. */
  datatype Message = Message(buf: seq<byte>, len: nat) {
    /** `NLMSG_TAIL`, as an offset. */
    function Tail(): nat { Align4(len) }
  }

  // ---------------------------------------------------------------- builders

  function Header(len: nat, typ: u16): (h: seq<byte>)
    ensures |h| == 4
  {
    Le16(len) + Le16(typ)
  }

  /** `addattr_l`. `None` is the "message exceeded bound" error, which changes nothing. */
  function AddAttr(m: Message, maxlen: nat, typ: u16, data: seq<byte>): (r: Option<Message>)
    requires maxlen <= |m.buf|
    ensures r.Some? ==> |r.value.buf| == |m.buf| && r.value.len == m.Tail() + Align4(4 + |data|) <= maxlen
    ensures r.Some? <==> m.Tail() + Align4(4 + |data|) <= maxlen
  {
    var len := 4 + |data|;
    if m.Tail() + Align4(len) > maxlen then None
    else Some(Message(Splice(m.buf, m.Tail(), Header(len, typ) + data), m.Tail() + Align4(len)))
  }

  /** `addattr_nest_end`: the nest header at `nest` takes the length up to the tail. */
  function NestEnd(m: Message, nest: nat): (r: Message)
    requires nest + 2 <= |m.buf|
    ensures |r.buf| == |m.buf| && r.len == m.len
  {
    Message(Put16(m.buf, nest, m.Tail() - nest), m.len)
  }

  /** `addattr_nest_compat`: the fixed part, then an empty nest of the same type behind it. */
  function CompatStart(m: Message, maxlen: nat, typ: u16, fixed: seq<byte>): (r: Option<Message>)
    requires maxlen <= |m.buf|
    ensures r.Some? ==> |r.value.buf| == |m.buf| && m.Tail() + 4 <= r.value.len <= maxlen
    ensures r.Some? ==> r.value.len == m.Tail() + Align4(4 + |fixed|) + 4
  {
    var m1 := AddAttr(m, maxlen, typ, fixed);
    if m1.None? then None else AddAttr(m1.value, maxlen, typ, [])
  }

  /**
   * `addattr_nest_compat_end`: closes the outer attribute at `start`, then the nest its old length
   * leads to. `None` when that is outside the buffer.
   */
  function NestCompatEnd(m: Message, start: nat): (r: Option<Message>)
    requires start + 2 <= |m.buf|
    ensures r.Some? ==> |r.value.buf| == |m.buf| && r.value.len == m.len
  {
    var nest := start + Align4(Get16(m.buf, start));
    if nest + 2 > |m.buf| then None
    else Some(NestEnd(Message(Put16(m.buf, start, m.Tail() - start), m.len), nest))
  }

  /** A tree of attributes, as a program builds it. */
  datatype Attr =
    | Leaf(typ: u16, data: seq<byte>)
    | Nest(typ: u16, sub: seq<Attr>)
    | Compat(typ: u16, fixed: seq<byte>, sub: seq<Attr>)

  /** The calls that build a forest: `None` as soon as one of them fails. */
  function Build(m: Message, maxlen: nat, attrs: seq<Attr>): (r: Option<Message>)
    requires maxlen <= |m.buf|
    ensures r.Some? ==> |r.value.buf| == |m.buf| && m.Tail() <= r.value.Tail()
    decreases attrs
  {
    if attrs == [] then Some(m)
    else
      var m1 := BuildOne(m, maxlen, attrs[0]);
      if m1.None? then None else Build(m1.value, maxlen, attrs[1..])
  }

  function BuildOne(m: Message, maxlen: nat, a: Attr): (r: Option<Message>)
    requires maxlen <= |m.buf|
    ensures r.Some? ==> |r.value.buf| == |m.buf| && m.Tail() <= r.value.Tail()
    decreases a
  {
    match a
    case Leaf(typ, data) => AddAttr(m, maxlen, typ, data)
    case Nest(typ, sub) =>
      var m1 := AddAttr(m, maxlen, typ, []);
      if m1.None? then None
      else
        var m2 := Build(m1.value, maxlen, sub);
        if m2.None? then None else Some(NestEnd(m2.value, m.Tail()))
    case Compat(typ, fixed, sub) =>
      var m2 := CompatStart(m, maxlen, typ, fixed);
      if m2.None? then None
      else
        var m3 := Build(m2.value, maxlen, sub);
        if m3.None? then None else NestCompatEnd(m3.value, m.Tail())
  }

  // ----------------------------------------------------------------- parsers

  /** `RTA_OK` for the attribute at `p` with `len` bytes left. */
  predicate RtaOk(b: seq<byte>, p: nat, len: int) {
    4 <= len && p + 4 <= |b| && 4 <= Get16(b, p) <= len
  }

  /** The offsets `parse_rtattr` stops at. */
  function Visited(b: seq<byte>, p: nat, len: int): (v: seq<nat>)
    ensures forall i :: 0 <= i < |v| ==> v[i] + 4 <= |b|
    decreases len
  {
    if !RtaOk(b, p, len) then [] else [p] + Visited(b, p + Align4(Get16(b, p)), len - Align4(Get16(b, p)))
  }

  /** What is left of `len` at the end; anything but zero is reported as a deficit. */
  function Residue(b: seq<byte>, p: nat, len: int): int
    decreases len
  {
    if !RtaOk(b, p, len) then len else Residue(b, p + Align4(Get16(b, p)), len - Align4(Get16(b, p)))
  }

  /** The slot for type `t`: the first visited attribute of that type. */
  function Slot(b: seq<byte>, v: seq<nat>, t: nat): (s: Option<nat>)
    requires forall i :: 0 <= i < |v| ==> v[i] + 4 <= |b|
    ensures s.Some? ==> s.value + 4 <= |b| && Get16(b, s.value + 2) == t
  {
    if v == [] then None
    else if Get16(b, v[0] + 2) == t then Some(v[0])
    else Slot(b, v[1..], t)
  }

  lemma VisitNext(b: seq<byte>, p: nat, len: int)
    ensures if RtaOk(b, p, len) then
              var n := Align4(Get16(b, p));
              Visited(b, p, len) == [p] + Visited(b, p + n, len - n) && Residue(b, p, len) == Residue(b, p + n, len - n)
            else Visited(b, p, len) == [] && Residue(b, p, len) == len
  {
  }

  /** `RTA_PAYLOAD`. */
  function PayloadLength(b: seq<byte>, p: nat): int
    requires p + 2 <= |b|
  {
    Get16(b, p) - 4
  }

  datatype CompatResult = TooShort | NoNest | NestAt(nest: nat)

  /** `__parse_rtattr_nested_compat` up to the point where it hands over to the plain parser. */
  function ParseCompat(b: seq<byte>, p: nat, len: nat): CompatResult
    requires p + 2 <= |b|
  {
    if PayloadLength(b, p) < len then TooShort
    else if PayloadLength(b, p) >= Align4(len) + 4 then NestAt(p + 4 + Align4(len))
    else NoNest
  }

  // -------------------------------------------------------------- round trip

  /** Parsing the `len` bytes at `p` shows exactly `attrs`, in order, with nothing left over. */
  ghost predicate Level(b: seq<byte>, p: nat, len: int, attrs: seq<Attr>)
    decreases attrs, 1
  {
    Residue(b, p, len) == 0 && |Visited(b, p, len)| == |attrs| &&
    forall i :: 0 <= i < |attrs| ==> Shows(b, Visited(b, p, len)[i], attrs[i])
  }

  /** The attribute at `p` carries what `a` was built from, down to the last byte and level. */
  ghost predicate Shows(b: seq<byte>, p: nat, a: Attr)
    decreases a, 0
  {
    p + 4 <= |b| && Get16(b, p + 2) == a.typ &&
    match a
    case Leaf(_, data) =>
      PayloadLength(b, p) == |data| && p + 4 + |data| <= |b| && b[p + 4..p + 4 + |data|] == data
    case Nest(_, sub) =>
      Level(b, p + 4, PayloadLength(b, p), sub)
    case Compat(typ, fixed, sub) =>
      p + 4 + |fixed| <= |b| && b[p + 4..p + 4 + |fixed|] == fixed &&
      var r := ParseCompat(b, p, |fixed|);
      r.NestAt? && r.nest + 4 <= |b| && Get16(b, r.nest + 2) == typ &&
      Level(b, r.nest + 4, PayloadLength(b, r.nest), sub)
  }

  function Size(attrs: seq<Attr>): (n: nat)
    ensures n % 4 == 0
    decreases attrs
  {
    if attrs == [] then 0 else SizeOne(attrs[0]) + Size(attrs[1..])
  }

  function SizeOne(a: Attr): (n: nat)
    ensures n % 4 == 0 && n >= 4
    decreases a
  {
    match a
    case Leaf(_, data) => Align4(4 + |data|)
    case Nest(_, sub) => 4 + Size(sub)
    case Compat(_, fixed, sub) => 4 + Align4(|fixed|) + 4 + Size(sub)
  }

  /** Every attribute's length fits its 16-bit field. */
  predicate Narrow(attrs: seq<Attr>)
    decreases attrs
  {
    attrs == [] || (NarrowOne(attrs[0]) && Narrow(attrs[1..]))
  }

  predicate NarrowOne(a: Attr)
    decreases a
  {
    match a
    case Leaf(_, data) => 4 + |data| < U16_MOD
    case Nest(_, sub) => SizeOne(a) < U16_MOD && Narrow(sub)
    case Compat(_, fixed, sub) => SizeOne(a) < U16_MOD && Narrow(sub)
  }

  // ------------------------------------------------------------------ layout

  /** The buffer holds `attrs` one after the other from `p`; padding bytes are anything. */
  ghost predicate Stored(b: seq<byte>, p: nat, attrs: seq<Attr>)
    decreases attrs
  {
    attrs == [] || (StoredOne(b, p, attrs[0]) && Stored(b, p + SizeOne(attrs[0]), attrs[1..]))
  }

  ghost predicate StoredOne(b: seq<byte>, p: nat, a: Attr)
    decreases a
  {
    p + SizeOne(a) <= |b| && Get16(b, p + 2) == a.typ &&
    match a
    case Leaf(_, data) => Get16(b, p) == 4 + |data| && HasAt(b, p + 4, data)
    case Nest(_, sub) => Get16(b, p) == SizeOne(a) && Stored(b, p + 4, sub)
    case Compat(typ, fixed, sub) =>
      var nest := p + 4 + Align4(|fixed|);
      Get16(b, p) == SizeOne(a) && HasAt(b, p + 4, fixed) &&
      Get16(b, nest) == 4 + Size(sub) && Get16(b, nest + 2) == typ && Stored(b, nest + 4, sub)
  }

  lemma {:induction false} StoredFrame(b: seq<byte>, b': seq<byte>, p: nat, attrs: seq<Attr>)
    requires Stored(b, p, attrs) && p + Size(attrs) <= |b| && Same(b, b', p, p + Size(attrs))
    ensures Stored(b', p, attrs)
    decreases attrs
  {
    if attrs != [] {
      StoredOneFrame(b, b', p, attrs[0]);
      StoredFrame(b, b', p + SizeOne(attrs[0]), attrs[1..]);
    }
  }

  lemma {:induction false} StoredOneFrame(b: seq<byte>, b': seq<byte>, p: nat, a: Attr)
    requires StoredOne(b, p, a) && Same(b, b', p, p + SizeOne(a))
    ensures StoredOne(b', p, a)
    decreases a
  {
    match a
    case Leaf(_, data) =>
    case Nest(_, sub) => StoredFrame(b, b', p + 4, sub);
    case Compat(_, fixed, sub) =>
      StoredFrame(b, b', p + 8 + Align4(|fixed|), sub);
  }

  /** The same, for bytes copied elsewhere: `b'` holds at `p'` what `b` holds at `p`. */
  lemma {:induction false} StoredMove(b: seq<byte>, p: nat, b': seq<byte>, p': nat, attrs: seq<Attr>)
    requires p + Size(attrs) <= |b| && Stored(b, p, attrs) && HasAt(b', p', b[p..p + Size(attrs)])
    ensures Stored(b', p', attrs)
    decreases attrs
  {
    hide HasAt, StoredOne;
    if attrs != [] {
      var n := SizeOne(attrs[0]);
      HasAtPart(b', p', b, p, Size(attrs), 0, n);
      HasAtPart(b', p', b, p, Size(attrs), n, Size(attrs) - n);
      StoredOneMove(b, p, b', p', attrs[0]);
      StoredMove(b, p + n, b', p' + n, attrs[1..]);
    }
  }

  lemma {:induction false} StoredOneMove(b: seq<byte>, p: nat, b': seq<byte>, p': nat, a: Attr)
    requires StoredOne(b, p, a) && HasAt(b', p', b[p..p + SizeOne(a)])
    ensures StoredOne(b', p', a)
    decreases a
  {
    hide HasAt, Align4, Get16, Stored;
    var n := SizeOne(a);
    assert p' + n <= |b'| by { HasAtSlice(b', p', b[p..p + n]); }
    Get16Part(b', p', b, p, n, 0);
    Get16Part(b', p', b, p, n, 2);
    match a
    case Leaf(_, data) =>
      HasAtPart(b', p', b, p, n, 4, |data|);
      HasAtSlice(b, p + 4, data);
    case Nest(_, sub) =>
      HasAtPart(b', p', b, p, n, 4, Size(sub));
      StoredMove(b, p + 4, b', p' + 4, sub);
    case Compat(_, fixed, sub) =>
      var q := 4 + Align4(|fixed|);
      HasAtPart(b', p', b, p, n, 4, |fixed|);
      HasAtSlice(b, p + 4, fixed);
      Get16Part(b', p', b, p, n, q);
      Get16Part(b', p', b, p, n, q + 2);
      HasAtPart(b', p', b, p, n, q + 4, Size(sub));
      StoredMove(b, p + q + 4, b', p' + q + 4, sub);
  }

  lemma {:induction false} SizeSnoc(attrs: seq<Attr>, a: Attr)
    ensures Size(attrs + [a]) == Size(attrs) + SizeOne(a)
  {
    if attrs == [] {
      assert [] + [a] == [a] && [a][1..] == [];
    } else {
      assert (attrs + [a])[1..] == attrs[1..] + [a];
      SizeSnoc(attrs[1..], a);
    }
  }

  lemma {:induction false} StoredSnoc(b: seq<byte>, p: nat, attrs: seq<Attr>, a: Attr)
    requires Stored(b, p, attrs) && StoredOne(b, p + Size(attrs), a)
    ensures Stored(b, p, attrs + [a])
    decreases |attrs|
  {
    hide StoredOne;
    if attrs == [] {
      assert [] + [a] == [a] && [a][1..] == [];
    } else {
      assert (attrs + [a])[1..] == attrs[1..] + [a];
      StoredSnoc(b, p + SizeOne(attrs[0]), attrs[1..], a);
    }
  }

  /** What one `addattr_l` leaves in the buffer. */
  lemma {:induction false} AddAttrStores(m: Message, maxlen: nat, typ: u16, data: seq<byte>)
    requires maxlen <= |m.buf| && 4 + |data| < U16_MOD && AddAttr(m, maxlen, typ, data).Some?
    ensures var b, p := AddAttr(m, maxlen, typ, data).value.buf, m.Tail();
            Same(m.buf, b, 0, p) && Get16(b, p) == 4 + |data| && Get16(b, p + 2) == typ && HasAt(b, p + 4, data)
  {
    hide Splice, HasAt, Le16, Align4, Same, Get16;
    var b, p := AddAttr(m, maxlen, typ, data).value.buf, m.Tail();
    var h := Header(4 + |data|, typ);
    HasAtSplit(b, p, h, data);
    HasAtSplit(b, p, Le16(4 + |data|), Le16(typ));
    Get16OfHasAt(b, p, 4 + |data|);
    Get16OfHasAt(b, p + 2, typ);
  }

  /** Building writes past the tail only, advances it by the forest's size, and stores the forest. */
  lemma {:induction false} BuildStores(m: Message, maxlen: nat, attrs: seq<Attr>)
    requires maxlen <= |m.buf| && m.Tail() <= |m.buf| && Narrow(attrs) && Build(m, maxlen, attrs).Some?
    ensures var r := Build(m, maxlen, attrs).value;
            r.Tail() == m.Tail() + Size(attrs) && Same(m.buf, r.buf, 0, m.Tail()) &&
            (attrs != [] ==> r.Tail() <= maxlen) && Stored(r.buf, m.Tail(), attrs)
    decreases attrs, 0
  {
    hide BuildOne, StoredOne, NarrowOne, SizeOne, Same, Align4;
    if attrs == [] {
      SameSelf(m.buf, 0, m.Tail());
    } else {
      var m1 := BuildOne(m, maxlen, attrs[0]).value;
      BuildOneStores(m, maxlen, attrs[0]);
      BuildStores(m1, maxlen, attrs[1..]);
      var r := Build(m1, maxlen, attrs[1..]).value;
      SamePart(m1.buf, r.buf, 0, m1.Tail(), m.Tail(), m1.Tail());
      SamePart(m1.buf, r.buf, 0, m1.Tail(), 0, m.Tail());
      SameTrans(m.buf, m1.buf, r.buf, 0, m.Tail());
      StoredOneFrame(m1.buf, r.buf, m.Tail(), attrs[0]);
    }
  }

  /** Building `a` wrote past the tail only, advanced it by the size of `a`, and stored `a`. */
  ghost predicate BuiltOne(m: Message, maxlen: nat, a: Attr)
    requires maxlen <= |m.buf|
  {
    var r := BuildOne(m, maxlen, a);
    r.Some? && r.value.Tail() == m.Tail() + SizeOne(a) <= maxlen && Same(m.buf, r.value.buf, 0, m.Tail()) &&
    StoredOne(r.value.buf, m.Tail(), a)
  }

  lemma {:induction false} BuildOneStores(m: Message, maxlen: nat, a: Attr)
    requires maxlen <= |m.buf| && NarrowOne(a) && BuildOne(m, maxlen, a).Some?
    ensures BuiltOne(m, maxlen, a)
    decreases a, 0
  {
    hide *;
    match a
    case Leaf(typ, data) => BuildLeafStores(m, maxlen, typ, data);
    case Nest(typ, sub) => BuildNestStores(m, maxlen, typ, sub);
    case Compat(typ, fixed, sub) => BuildCompatStores(m, maxlen, typ, fixed, sub);
  }

  lemma {:induction false} BuildLeafStores(m: Message, maxlen: nat, typ: u16, data: seq<byte>)
    requires maxlen <= |m.buf| && NarrowOne(Leaf(typ, data)) && BuildOne(m, maxlen, Leaf(typ, data)).Some?
    ensures BuiltOne(m, maxlen, Leaf(typ, data))
  {
    hide AddAttr, HasAt, Get16, Same, Align4;
    AddAttrStores(m, maxlen, typ, data);
  }

  lemma {:induction false} BuildNestStores(m: Message, maxlen: nat, typ: u16, sub: seq<Attr>)
    requires maxlen <= |m.buf| && NarrowOne(Nest(typ, sub)) && BuildOne(m, maxlen, Nest(typ, sub)).Some?
    ensures BuiltOne(m, maxlen, Nest(typ, sub))
    decreases sub, 1
  {
    hide AddAttr, NestEnd, Stored, StoredOne, Build, Get16, HasAt, Same;
    AddAttrStores(m, maxlen, typ, []);
    var m1 := AddAttr(m, maxlen, typ, []).value;
    BuildStores(m1, maxlen, sub);
    NestEndStores(m, m1, Build(m1, maxlen, sub).value, typ, sub);
  }

  lemma {:induction false} BuildCompatStores(m: Message, maxlen: nat, typ: u16, fixed: seq<byte>, sub: seq<Attr>)
    requires maxlen <= |m.buf| && NarrowOne(Compat(typ, fixed, sub))
    requires BuildOne(m, maxlen, Compat(typ, fixed, sub)).Some?
    ensures BuiltOne(m, maxlen, Compat(typ, fixed, sub))
    decreases sub, 1
  {
    hide NestCompatEnd, CompatStart, StoredOne, AddAttr, Splice, Stored, Same, CompatHead, Align4;
    var m2 := CompatStart(m, maxlen, typ, fixed).value;
    var m3 := Build(m2, maxlen, sub).value;
    assert BuildOne(m, maxlen, Compat(typ, fixed, sub)) == NestCompatEnd(m3, m.Tail());
    CompatTail(m, m2, |fixed|);
    CompatStartStores(m, maxlen, typ, fixed);
    BuildStores(m2, maxlen, sub);
    CompatEndStores(m, m2, m3, typ, fixed, sub);
    assert SizeOne(Compat(typ, fixed, sub)) == 8 + Align4(|fixed|) + Size(sub);
  }

  lemma CompatTail(m: Message, m2: Message, n: nat)
    requires m2.len == m.Tail() + Align4(4 + n) + 4
    ensures m2.Tail() == m2.len == m.Tail() + 8 + Align4(n)
  {
    hide Align4;
    Align4Plus(4, n);
  }

  lemma {:induction false} NestEndStores(m: Message, m1: Message, m2: Message, typ: u16, sub: seq<Attr>)
    requires m1.len == m.Tail() + 4 <= |m.buf| == |m1.buf|
    requires Same(m.buf, m1.buf, 0, m.Tail()) && Get16(m1.buf, m.Tail() + 2) == typ
    requires m2.Tail() == m1.Tail() + Size(sub) <= |m2.buf| && Same(m1.buf, m2.buf, 0, m1.Tail())
    requires Stored(m2.buf, m1.Tail(), sub) && 4 + Size(sub) < U16_MOD
    ensures var r := NestEnd(m2, m.Tail());
            Same(m.buf, r.buf, 0, m.Tail()) && StoredOne(r.buf, m.Tail(), Nest(typ, sub))
  {
    hide Put16, Stored;
    var r, p := NestEnd(m2, m.Tail()), m.Tail();
    Put16Cut(m2.buf, p, 4 + Size(sub));
    StoredFrame(m2.buf, r.buf, p + 4, sub);
  }

  lemma {:induction false} CompatStartStores(m: Message, maxlen: nat, typ: u16, fixed: seq<byte>)
    requires maxlen <= |m.buf| && 4 + |fixed| < U16_MOD && CompatStart(m, maxlen, typ, fixed).Some?
    ensures var b, p := CompatStart(m, maxlen, typ, fixed).value.buf, m.Tail();
            Same(m.buf, b, 0, p) && CompatHead(b, p, typ, fixed)
  {
    hide AddAttr;
    var m1, p := AddAttr(m, maxlen, typ, fixed).value, m.Tail();
    AddAttrStores(m, maxlen, typ, fixed);
    AddAttrStores(m1, maxlen, typ, []);
    Align4Plus(4, |fixed|);
  }

  /** The fixed part and the still empty nest of a compat attribute. */
  ghost predicate CompatHead(b: seq<byte>, p: nat, typ: u16, fixed: seq<byte>) {
    var nest := p + 4 + Align4(|fixed|);
    nest + 4 <= |b| && Get16(b, p) == 4 + |fixed| && Get16(b, p + 2) == typ &&
    HasAt(b, p + 4, fixed) && Get16(b, nest + 2) == typ
  }

  lemma {:induction false} CompatEndStores(
    m: Message, m2: Message, m3: Message, typ: u16, fixed: seq<byte>, sub: seq<Attr>)
    requires m2.Tail() == m2.len == m.Tail() + 8 + Align4(|fixed|) <= |m.buf| == |m2.buf|
    requires Same(m.buf, m2.buf, 0, m.Tail()) && CompatHead(m2.buf, m.Tail(), typ, fixed)
    requires m3.Tail() == m2.Tail() + Size(sub) <= |m3.buf| && Same(m2.buf, m3.buf, 0, m2.Tail())
    requires Stored(m3.buf, m2.Tail(), sub) && 8 + Align4(|fixed|) + Size(sub) < U16_MOD
    ensures var r := NestCompatEnd(m3, m.Tail());
            r.Some? && Same(m.buf, r.value.buf, 0, m.Tail()) &&
            StoredOne(r.value.buf, m.Tail(), Compat(typ, fixed, sub))
  {
    hide Put16, Stored, StoredOne, CompatHead, Same, Get16, Align4;
    var p, n := m.Tail(), Align4(|fixed|);
    CompatHeadFrame(m2.buf, m3.buf, p, m2.Tail(), typ, fixed);
    Align4Plus(4, |fixed|);
    CompatClosed(m3.buf, p, p + 4 + n, m3.Tail(), typ, fixed, sub);
    var r := NestCompatEnd(m3, p).value.buf;
    SamePart(m2.buf, m3.buf, 0, m2.Tail(), 0, p);
    SameTrans(m.buf, m2.buf, m3.buf, 0, p);
    SameTrans(m.buf, m3.buf, r, 0, p);
  }

  lemma CompatHeadFrame(b: seq<byte>, b': seq<byte>, p: nat, end: nat, typ: u16, fixed: seq<byte>)
    requires CompatHead(b, p, typ, fixed) && end == p + 8 + Align4(|fixed|) && Same(b, b', 0, end)
    ensures CompatHead(b', p, typ, fixed) && Get16(b', p) == 4 + |fixed|
  {
  }

  /** Two stores close a compat attribute: the outer length at `p` and the nest's at `nest`. */
  lemma {:induction false} CompatClosed(
    b: seq<byte>, p: nat, nest: nat, end: nat, typ: u16, fixed: seq<byte>, sub: seq<Attr>)
    requires nest == p + 4 + Align4(|fixed|) && nest + 4 + Size(sub) == end <= |b| && end - p < U16_MOD
    requires CompatHead(b, p, typ, fixed) && Stored(b, nest + 4, sub)
    ensures var b2 := Put16(Put16(b, p, end - p), nest, end - nest);
            Same(b, b2, 0, p) && StoredOne(b2, p, Compat(typ, fixed, sub))
  {
    hide Put16;
    TwoPuts(b, p, nest, end - p, end - nest);
    var b2 := Put16(Put16(b, p, end - p), nest, end - nest);
    StoredFrame(b, b2, nest + 4, sub);
  }

  lemma TwoPuts(b: seq<byte>, p: nat, q: nat, x: nat, y: nat)
    requires p + 4 <= q && q + 4 <= |b| && x < U16_MOD && y < U16_MOD
    ensures var b2 := Put16(Put16(b, p, x), q, y);
            Get16(b2, p) == x && Get16(b2, q) == y &&
            Same(b, b2, 0, p) && Same(b, b2, p + 2, q) && Same(b, b2, q + 2, |b|)
  {
    Put16Cut(b, p, x);
    Put16Cut(Put16(b, p, x), q, y);
  }

  // ----------------------------------------------------------------- parsing

  /** What is stored is what the parser shows, at every depth. */
  lemma {:induction false} StoredLevel(b: seq<byte>, p: nat, attrs: seq<Attr>)
    requires Stored(b, p, attrs) && p + Size(attrs) <= |b|
    ensures Level(b, p, Size(attrs), attrs)
    decreases attrs, 1
  {
    if attrs != [] {
      var n := SizeOne(attrs[0]);
      StoredShows(b, p, attrs[0]);
      StoredLevel(b, p + n, attrs[1..]);
      LevelCons(b, p, Size(attrs), attrs);
    }
  }

  lemma {:induction false} LevelCons(b: seq<byte>, p: nat, len: nat, attrs: seq<Attr>)
    requires attrs != [] && RtaOk(b, p, len)
    requires Shows(b, p, attrs[0])
    requires var n := Align4(Get16(b, p)); Level(b, p + n, len - n, attrs[1..])
    ensures Level(b, p, len, attrs)
  {
    hide Shows, Align4;
    var n := Align4(Get16(b, p));
    var v, v' := Visited(b, p, len), Visited(b, p + n, len - n);
    assert v == [p] + v';
    forall i | 0 <= i < |attrs| ensures Shows(b, v[i], attrs[i]) {
      if i > 0 { assert v[i] == v'[i - 1] && attrs[i] == attrs[1..][i - 1]; }
    }
  }

  lemma {:induction false} StoredShows(b: seq<byte>, p: nat, a: Attr)
    requires StoredOne(b, p, a)
    ensures Shows(b, p, a) && 4 <= Get16(b, p) <= SizeOne(a) == Align4(Get16(b, p))
    decreases a, 0
  {
    hide Level, Stored, HasAt, Size, Get16;
    match a
    case Leaf(_, data) => HasAtSlice(b, p + 4, data);
    case Nest(_, sub) => StoredLevel(b, p + 4, sub);
    case Compat(_, fixed, sub) =>
      HasAtSlice(b, p + 4, fixed);
      StoredLevel(b, p + 8 + Align4(|fixed|), sub);
  }

  /**
   * Any forest built with all calls succeeding and lengths within 16 bits parses back to itself,
   * level by level and byte by byte, with no residue. Earlier bytes of the message are untouched.
   */
  lemma {:induction false} RoundTrip(m: Message, maxlen: nat, attrs: seq<Attr>)
    requires maxlen <= |m.buf| && m.Tail() <= |m.buf| && Narrow(attrs)
    requires Build(m, maxlen, attrs).Some?
    ensures var r := Build(m, maxlen, attrs).value;
            Level(r.buf, m.Tail(), r.Tail() - m.Tail(), attrs) && Same(m.buf, r.buf, 0, m.Tail())
  {
    hide Stored, Level, Same, Narrow, BuildOne, SizeOne;
    BuildStores(m, maxlen, attrs);
    StoredLevel(Build(m, maxlen, attrs).value.buf, m.Tail(), attrs);
  }

  /** All the calls succeed exactly when the whole forest fits below the bound. */
  lemma {:induction false} BuildSucceeds(m: Message, maxlen: nat, attrs: seq<Attr>)
    requires maxlen <= |m.buf| && m.Tail() <= |m.buf| && Narrow(attrs) && attrs != []
    ensures Build(m, maxlen, attrs).Some? <==> m.Tail() + Size(attrs) <= maxlen
    decreases attrs, 1
  {
    if Build(m, maxlen, attrs).Some? { BuildStores(m, maxlen, attrs); }
    if m.Tail() + Size(attrs) <= maxlen {
      hide BuildOne, StoredOne;
      BuildOneSucceeds(m, maxlen, attrs[0]);
      BuildOneStores(m, maxlen, attrs[0]);
      var m1 := BuildOne(m, maxlen, attrs[0]).value;
      if attrs[1..] != [] { BuildSucceeds(m1, maxlen, attrs[1..]); }
      assert Build(m1, maxlen, attrs[1..]).Some?;
      assert Build(m, maxlen, attrs).Some?;
    }
  }

  lemma {:induction false} BuildOneSucceeds(m: Message, maxlen: nat, a: Attr)
    requires m.Tail() + SizeOne(a) <= maxlen <= |m.buf| && NarrowOne(a)
    ensures BuildOne(m, maxlen, a).Some?
    decreases a, 0
  {
    hide AddAttr, NestEnd, NestCompatEnd, CompatStart;
    match a
    case Leaf(_, _) =>
    case Nest(typ, sub) =>
      var m1 := AddAttr(m, maxlen, typ, []).value;
      if sub != [] { BuildSucceeds(m1, maxlen, sub); }
    case Compat(typ, fixed, sub) => BuildCompatSucceeds(m, maxlen, typ, fixed, sub);
  }

  lemma CompatStartFits(m: Message, maxlen: nat, typ: u16, fixed: seq<byte>)
    requires m.Tail() + 8 + Align4(|fixed|) <= maxlen <= |m.buf|
    ensures var r := CompatStart(m, maxlen, typ, fixed);
            r.Some? && r.value.Tail() == r.value.len == m.Tail() + 8 + Align4(|fixed|)
  {
    Align4Plus(4, |fixed|);
  }

  lemma {:induction false} BuildCompatSucceeds(m: Message, maxlen: nat, typ: u16, fixed: seq<byte>, sub: seq<Attr>)
    requires m.Tail() + SizeOne(Compat(typ, fixed, sub)) <= maxlen <= |m.buf|
    requires NarrowOne(Compat(typ, fixed, sub))
    ensures BuildOne(m, maxlen, Compat(typ, fixed, sub)).Some?
    decreases sub, 2
  {
    hide NestCompatEnd, StoredOne, Stored, CompatStart;
    assert SizeOne(Compat(typ, fixed, sub)) == 8 + Align4(|fixed|) + Size(sub);
    CompatStartFits(m, maxlen, typ, fixed);
    var m2 := CompatStart(m, maxlen, typ, fixed).value;
    if sub != [] { BuildSucceeds(m2, maxlen, sub); }
    CompatStartStores(m, maxlen, typ, fixed);
    BuildStores(m2, maxlen, sub);
    CompatEndStores(m, m2, Build(m2, maxlen, sub).value, typ, fixed, sub);
  }

  // ------------------------------------------------------------------- slots

  function TypeAt(b: seq<byte>, p: nat): u16
    requires p + 4 <= |b|
  {
    Get16(b, p + 2)
  }

  /** A slot holds the first visited attribute of its type, and is empty when there is none. */
  lemma {:induction false} SlotIsFirst(b: seq<byte>, v: seq<nat>, t: nat)
    requires forall i :: 0 <= i < |v| ==> v[i] + 4 <= |b|
    ensures Slot(b, v, t).None? <==> forall i :: 0 <= i < |v| ==> TypeAt(b, v[i]) != t
    ensures Slot(b, v, t).Some? ==>
              (exists i :: 0 <= i < |v| && v[i] == Slot(b, v, t).value && TypeAt(b, v[i]) == t &&
                           (forall j :: 0 <= j < i ==> TypeAt(b, v[j]) != t))
  {
    if v != [] && TypeAt(b, v[0]) != t {
      SlotIsFirst(b, v[1..], t);
      if Slot(b, v[1..], t).Some? {
        var i :| 0 <= i < |v[1..]| && v[1..][i] == Slot(b, v, t).value && TypeAt(b, v[1..][i]) == t &&
                 forall j :: 0 <= j < i ==> TypeAt(b, v[1..][j]) != t;
        assert v[i + 1] == v[1..][i];
        forall j | 0 <= j < i + 1 ensures TypeAt(b, v[j]) != t {
          if j > 0 { assert v[j] == v[1..][j - 1]; }
        }
      } else {
        forall j | 0 <= j < |v| ensures TypeAt(b, v[j]) != t {
          if j > 0 { assert v[j] == v[1..][j - 1]; }
        }
      }
    }
  }

  /** Of a parsed level, the slot for `t` shows the first attribute of type `t`, or is empty if none is. */
  lemma LevelSlot(b: seq<byte>, p: nat, len: int, attrs: seq<Attr>, t: u16)
    requires Level(b, p, len, attrs)
    ensures var s := Slot(b, Visited(b, p, len), t);
            (s.None? <==> forall i :: 0 <= i < |attrs| ==> attrs[i].typ != t) &&
            (s.Some? ==>
               (exists i :: 0 <= i < |attrs| && attrs[i].typ == t &&
                            (forall j :: 0 <= j < i ==> attrs[j].typ != t) && Shows(b, s.value, attrs[i])))
  {
    var v := Visited(b, p, len);
    SlotIsFirst(b, v, t);
    assert forall i :: 0 <= i < |attrs| ==> Shows(b, v[i], attrs[i]) && TypeAt(b, v[i]) == attrs[i].typ;
  }

  /** `data` is the payload of the first attribute of type `t`, if there is one. */
  ghost predicate FirstData(attrs: seq<Attr>, t: u16, data: Option<seq<byte>>) {
    match data
    case None => forall i :: 0 <= i < |attrs| ==> attrs[i].typ != t
    case Some(d) =>
      exists i :: 0 <= i < |attrs| && attrs[i] == Leaf(t, d) && forall j :: 0 <= j < i ==> attrs[j].typ != t
  }

  /** Of stored attributes, the slot for `t` shows the first payload of that type. */
  lemma FirstShown(n: seq<byte>, p: nat, attrs: seq<Attr>, t: u16, data: Option<seq<byte>>)
    requires p + Size(attrs) <= |n| && Stored(n, p, attrs) && FirstData(attrs, t, data)
    ensures var s := Slot(n, Visited(n, p, Size(attrs)), t);
            s.Some? == data.Some? && (s.Some? ==> Shows(n, s.value, Leaf(t, data.value)))
  {
    hide Shows, Stored, Slot, Visited;
    StoredLevel(n, p, attrs);
    hide Level;
    LevelSlot(n, p, Size(attrs), attrs, t);
  }

  /** An attribute without a nest, read as one with a fixed part of `len` bytes and a nest behind that. */
  lemma PlainAsCompat(b: seq<byte>, p: nat, typ: u16, data: seq<byte>, len: nat)
    requires StoredOne(b, p, Leaf(typ, data))
    ensures p + 2 <= |b|
    ensures ParseCompat(b, p, len).TooShort? <==> |data| < len
    ensures ParseCompat(b, p, len).NoNest? <==> len <= |data| < Align4(len) + 4
    ensures ParseCompat(b, p, len).NestAt? ==>
              ParseCompat(b, p, len).nest + 4 <= p + 4 + |data| && ParseCompat(b, p, len).nest == p + 4 + Align4(len)
  {
  }

  // ------------------------------------------------------------ too wide

  /** Wide or not, building writes past the tail only and advances it by the forest's size. */
  lemma {:induction false} BuildGrows(m: Message, maxlen: nat, attrs: seq<Attr>)
    requires maxlen <= |m.buf| && m.Tail() <= |m.buf| && Build(m, maxlen, attrs).Some?
    ensures var r := Build(m, maxlen, attrs).value;
            r.Tail() == m.Tail() + Size(attrs) <= |m.buf| && Same(m.buf, r.buf, 0, m.Tail())
    decreases attrs, 0
  {
    hide BuildOne, SizeOne, Same, Align4;
    if attrs == [] {
      SameSelf(m.buf, 0, m.Tail());
    } else {
      var m1 := BuildOne(m, maxlen, attrs[0]).value;
      BuildOneGrows(m, maxlen, attrs[0]);
      BuildGrows(m1, maxlen, attrs[1..]);
      var r := Build(m1, maxlen, attrs[1..]).value;
      SamePart(m1.buf, r.buf, 0, m1.Tail(), 0, m.Tail());
      SameTrans(m.buf, m1.buf, r.buf, 0, m.Tail());
    }
  }

  /** Building `a` advances the tail by its size and writes nothing before the old tail. */
  ghost predicate Grows(m: Message, maxlen: nat, a: Attr)
    requires maxlen <= |m.buf|
  {
    var r := BuildOne(m, maxlen, a);
    r.Some? && r.value.Tail() == m.Tail() + SizeOne(a) <= |m.buf| && Same(m.buf, r.value.buf, 0, m.Tail())
  }

  lemma {:induction false} BuildOneGrows(m: Message, maxlen: nat, a: Attr)
    requires maxlen <= |m.buf| && m.Tail() <= |m.buf| && BuildOne(m, maxlen, a).Some?
    ensures Grows(m, maxlen, a)
    decreases a, 1
  {
    match a
    case Leaf(typ, data) => AddAttrKeeps(m, maxlen, typ, data);
    case Nest(typ, sub) => NestGrows(m, maxlen, a);
    case Compat(typ, fixed, sub) => CompatGrows(m, maxlen, a);
  }

  lemma {:induction false} NestGrows(m: Message, maxlen: nat, a: Attr)
    requires maxlen <= |m.buf| && m.Tail() <= |m.buf| && a.Nest? && BuildOne(m, maxlen, a).Some?
    ensures Grows(m, maxlen, a)
    decreases a, 0
  {
    hide AddAttr, NestEnd, Build, Same, Align4;
    var m1, p := AddAttr(m, maxlen, a.typ, []).value, m.Tail();
    AddAttrKeeps(m, maxlen, a.typ, []);
    BuildGrows(m1, maxlen, a.sub);
    var m2 := Build(m1, maxlen, a.sub).value;
    NestEndKeeps(m2, p);
    KeptTwice(m.buf, m1.buf, m2.buf, p, m1.Tail());
    SameTrans(m.buf, m2.buf, NestEnd(m2, p).buf, 0, p);
  }

  lemma {:induction false} CompatGrows(m: Message, maxlen: nat, a: Attr)
    requires maxlen <= |m.buf| && m.Tail() <= |m.buf| && a.Compat? && BuildOne(m, maxlen, a).Some?
    ensures Grows(m, maxlen, a)
    decreases a, 0
  {
    hide CompatStart, NestCompatEnd, Build, Same, Align4;
    var m1, p := CompatStart(m, maxlen, a.typ, a.fixed).value, m.Tail();
    CompatStartKeeps(m, maxlen, a.typ, a.fixed);
    BuildGrows(m1, maxlen, a.sub);
    var m2 := Build(m1, maxlen, a.sub).value;
    CompatEndKeeps(m2, p);
    KeptTwice(m.buf, m1.buf, m2.buf, p, m1.Tail());
    SameTrans(m.buf, m2.buf, NestCompatEnd(m2, p).value.buf, 0, p);
  }

  lemma KeptTwice(a: seq<byte>, b: seq<byte>, c: seq<byte>, p: nat, q: nat)
    requires p <= q && Same(a, b, 0, p) && Same(b, c, 0, q)
    ensures Same(a, c, 0, p)
  {
  }

  lemma AddAttrKeeps(m: Message, maxlen: nat, typ: u16, data: seq<byte>)
    requires maxlen <= |m.buf| && AddAttr(m, maxlen, typ, data).Some?
    ensures var r := AddAttr(m, maxlen, typ, data).value;
            Same(m.buf, r.buf, 0, m.Tail()) && r.Tail() == r.len == m.Tail() + Align4(4 + |data|)
  {
    hide Align4;
    TailSum(m.Tail(), Align4(4 + |data|));
  }

  lemma TailSum(p: nat, n: nat)
    requires p % 4 == 0 && n % 4 == 0
    ensures Align4(p + n) == p + n
  {
  }

  lemma CompatStartKeeps(m: Message, maxlen: nat, typ: u16, fixed: seq<byte>)
    requires maxlen <= |m.buf| && CompatStart(m, maxlen, typ, fixed).Some?
    ensures var r := CompatStart(m, maxlen, typ, fixed).value;
            Same(m.buf, r.buf, 0, m.Tail()) && r.Tail() == m.Tail() + 8 + Align4(|fixed|) <= |m.buf|
  {
    hide AddAttr, Align4, Same;
    var m1 := AddAttr(m, maxlen, typ, fixed).value;
    AddAttrKeeps(m, maxlen, typ, fixed);
    AddAttrKeeps(m1, maxlen, typ, []);
    Align4Plus(4, |fixed|);
    KeptTwice(m.buf, m1.buf, AddAttr(m1, maxlen, typ, []).value.buf, m.Tail(), m1.Tail());
  }

  lemma NestEndKeeps(m: Message, p: nat)
    requires p + 2 <= |m.buf|
    ensures var r := NestEnd(m, p);
            r.Tail() == m.Tail() && Same(m.buf, r.buf, 0, p) && Same(m.buf, r.buf, p + 2, |m.buf|)
  {
    hide Put16;
    Put16Cut(m.buf, p, m.Tail() - p);
  }

  lemma CompatEndKeeps(m: Message, p: nat)
    requires p + 2 <= |m.buf| && NestCompatEnd(m, p).Some?
    ensures var r := NestCompatEnd(m, p).value;
            r.Tail() == m.Tail() && Same(m.buf, r.buf, 0, p)
  {
    hide Put16, Get16, Align4;
    var b := Put16(m.buf, p, m.Tail() - p);
    var nest := p + Align4(Get16(m.buf, p));
    Put16Cut(m.buf, p, m.Tail() - p);
    Put16Cut(b, nest, m.Tail() - nest);
  }

  /** Parsing a level of stored attributes uses up exactly their size. */
  lemma {:induction false} LevelLength(b: seq<byte>, p: nat, len: int, attrs: seq<Attr>)
    requires Stored(b, p, attrs) && Level(b, p, len, attrs)
    ensures len == Size(attrs)
    decreases |attrs|
  {
    hide StoredOne, Shows;
    if attrs != [] {
      LevelTail(b, p, len, attrs);
      StoredShows(b, p, attrs[0]);
      LevelLength(b, p + SizeOne(attrs[0]), len - SizeOne(attrs[0]), attrs[1..]);
    }
  }

  /** A level shows its first attribute at its start, and the others form a level behind it. */
  lemma LevelTail(b: seq<byte>, p: nat, len: int, attrs: seq<Attr>)
    requires attrs != [] && Level(b, p, len, attrs)
    ensures p + 4 <= |b| && Shows(b, p, attrs[0])
    ensures var n := Align4(Get16(b, p)); Level(b, p + n, len - n, attrs[1..])
  {
    hide Shows, Align4;
    var v, n := Visited(b, p, len), Align4(Get16(b, p));
    assert RtaOk(b, p, len);
    var v' := Visited(b, p + n, len - n);
    assert v == [p] + v' && v[0] == p;
    assert Shows(b, v[0], attrs[0]);
    forall i | 0 <= i < |attrs[1..]| ensures Shows(b, v'[i], attrs[1..][i]) {
      assert v'[i] == v[i + 1] && attrs[1..][i] == attrs[i + 1];
    }
  }

  /** A forest with a length past 16 bits is not shown, at whatever length the level is read. */
  lemma {:induction false} WideLevel(m: Message, maxlen: nat, attrs: seq<Attr>, b: seq<byte>, len: int)
    requires maxlen <= |m.buf| && m.Tail() <= |m.buf| && Build(m, maxlen, attrs).Some? && !Narrow(attrs)
    requires Same(Build(m, maxlen, attrs).value.buf, b, m.Tail(), m.Tail() + Size(attrs))
    ensures !Level(b, m.Tail(), len, attrs)
    decreases attrs, 0
  {
    hide BuildOne, NarrowOne, SizeOne, StoredOne, Shows, Level, Same, Align4;
    var p, a, rest := m.Tail(), attrs[0], attrs[1..];
    var m1 := BuildOne(m, maxlen, a).value;
    var r := Build(m1, maxlen, rest).value;
    BuildOneGrows(m, maxlen, a);
    BuildGrows(m1, maxlen, rest);
    SamePart(m1.buf, r.buf, 0, m1.Tail(), p, m1.Tail());
    SamePart(r.buf, b, p, p + Size(attrs), p, m1.Tail());
    SameTrans(m1.buf, r.buf, b, p, m1.Tail());
    if !NarrowOne(a) {
      WideOne(m, maxlen, a, b);
      if Level(b, p, len, attrs) { LevelTail(b, p, len, attrs); }
    } else {
      BuildOneStores(m, maxlen, a);
      StoredOneFrame(m1.buf, b, p, a);
      StoredShows(b, p, a);
      SamePart(r.buf, b, p, p + Size(attrs), m1.Tail(), m1.Tail() + Size(rest));
      WideLevel(m1, maxlen, rest, b, len - SizeOne(a));
      if Level(b, p, len, attrs) { LevelTail(b, p, len, attrs); }
    }
  }

  lemma {:induction false} WideOne(m: Message, maxlen: nat, a: Attr, b: seq<byte>)
    requires maxlen <= |m.buf| && m.Tail() <= |m.buf| && BuildOne(m, maxlen, a).Some? && !NarrowOne(a)
    requires Same(BuildOne(m, maxlen, a).value.buf, b, m.Tail(), m.Tail() + SizeOne(a))
    ensures !Shows(b, m.Tail(), a)
    decreases a, 0
  {
    match a
    case Leaf(_, _) =>
    case Nest(typ, sub) => WideNest(m, maxlen, typ, sub, b);
    case Compat(typ, fixed, sub) => WideCompat(m, maxlen, typ, fixed, sub, b);
  }

  /** Built attributes of narrow lengths are stored, others are not shown; either way the level has one length. */
  lemma {:induction false} SubLevel(m: Message, maxlen: nat, sub: seq<Attr>, b: seq<byte>, len: int)
    requires maxlen <= |m.buf| && m.Tail() <= |m.buf| && Build(m, maxlen, sub).Some?
    requires Same(Build(m, maxlen, sub).value.buf, b, m.Tail(), m.Tail() + Size(sub))
    ensures Level(b, m.Tail(), len, sub) ==> Narrow(sub) && len == Size(sub)
    decreases sub, 1
  {
    hide Build, Narrow, Level, Stored, Same, Size;
    if !Narrow(sub) {
      WideLevel(m, maxlen, sub, b, len);
    } else if Level(b, m.Tail(), len, sub) {
      BuildStores(m, maxlen, sub);
      BuildGrows(m, maxlen, sub);
      StoredFrame(Build(m, maxlen, sub).value.buf, b, m.Tail(), sub);
      LevelLength(b, m.Tail(), len, sub);
    }
  }

  lemma {:induction false} WideNest(m: Message, maxlen: nat, typ: u16, sub: seq<Attr>, b: seq<byte>)
    requires maxlen <= |m.buf| && m.Tail() <= |m.buf| && BuildOne(m, maxlen, Nest(typ, sub)).Some?
    requires !NarrowOne(Nest(typ, sub))
    requires Same(BuildOne(m, maxlen, Nest(typ, sub)).value.buf, b, m.Tail(), m.Tail() + 4 + Size(sub))
    ensures !Shows(b, m.Tail(), Nest(typ, sub))
    decreases sub, 2
  {
    hide AddAttr, NestEnd, Build, Level, Same, Align4, Get16;
    var m1, p := AddAttr(m, maxlen, typ, []).value, m.Tail();
    AddAttrKeeps(m, maxlen, typ, []);
    var m2 := Build(m1, maxlen, sub).value;
    BuildGrows(m1, maxlen, sub);
    NestEndKeeps(m2, p);
    var r := NestEnd(m2, p);
    SamePart(m2.buf, r.buf, p + 2, |m2.buf|, p + 4, p + 4 + Size(sub));
    SamePart(r.buf, b, p, p + 4 + Size(sub), p + 4, p + 4 + Size(sub));
    SameTrans(m2.buf, r.buf, b, p + 4, p + 4 + Size(sub));
    if p + 4 <= |b| { SubLevel(m1, maxlen, sub, b, PayloadLength(b, p)); }
  }

  lemma {:induction false} WideCompat(
    m: Message, maxlen: nat, typ: u16, fixed: seq<byte>, sub: seq<Attr>, b: seq<byte>)
    requires maxlen <= |m.buf| && m.Tail() <= |m.buf| && BuildOne(m, maxlen, Compat(typ, fixed, sub)).Some?
    requires !NarrowOne(Compat(typ, fixed, sub))
    requires Same(BuildOne(m, maxlen, Compat(typ, fixed, sub)).value.buf, b, m.Tail(),
                  m.Tail() + 8 + Align4(|fixed|) + Size(sub))
    ensures !Shows(b, m.Tail(), Compat(typ, fixed, sub))
    decreases sub, 2
  {
    hide CompatStart, NestCompatEnd, Build, Level, Same, Align4, Get16, Shows;
    var n, p := 8 + Align4(|fixed|), m.Tail();
    if Shows(b, p, Compat(typ, fixed, sub)) {
      CompatShows(b, p, typ, fixed, sub);
      var m1 := CompatStart(m, maxlen, typ, fixed).value;
      CompatStartKeeps(m, maxlen, typ, fixed);
      var m2 := Build(m1, maxlen, sub).value;
      BuildGrows(m1, maxlen, sub);
      CompatLengths(m, maxlen, typ, fixed, m2);
      var r := NestCompatEnd(m2, p).value;
      SamePart(m2.buf, r.buf, p + n, |m2.buf|, p + n, p + n + Size(sub));
      SamePart(r.buf, b, p, p + n + Size(sub), p + n, p + n + Size(sub));
      SameTrans(m2.buf, r.buf, b, p + n, p + n + Size(sub));
      SamePart(r.buf, b, p, p + n + Size(sub), p, p + 2);
      Get16Same(r.buf, b, p);
      SubLevel(m1, maxlen, sub, b, PayloadLength(b, p + n - 4));
      CutBelow(n, Size(sub));
    }
  }

  /** What a shown compat attribute says of its lengths. */
  lemma CompatShows(b: seq<byte>, p: nat, typ: u16, fixed: seq<byte>, sub: seq<Attr>)
    requires Shows(b, p, Compat(typ, fixed, sub))
    ensures var n := 8 + Align4(|fixed|);
            p + n <= |b| && n <= Get16(b, p) < U16_MOD && Level(b, p + n, PayloadLength(b, p + n - 4), sub)
  {
    hide Level, Align4;
  }

  lemma CutBelow(n: nat, size: nat)
    requires n < U16_MOD && size + 4 < U16_MOD && n + size >= U16_MOD
    ensures (n + size) % U16_MOD < n
  {
  }

  lemma Get16Same(b: seq<byte>, c: seq<byte>, p: nat)
    requires Same(b, c, p, p + 2)
    ensures Get16(b, p) == Get16(c, p)
  {
  }

  /** The lengths a compat attribute is closed with, cut to 16 bits. */
  lemma CompatLengths(m: Message, maxlen: nat, typ: u16, fixed: seq<byte>, m2: Message)
    requires maxlen <= |m.buf| && CompatStart(m, maxlen, typ, fixed).Some? && 8 + Align4(|fixed|) < U16_MOD
    requires var m1 := CompatStart(m, maxlen, typ, fixed).value;
             Same(m1.buf, m2.buf, 0, m1.Tail()) && m1.Tail() <= m2.Tail()
    ensures var p, n := m.Tail(), 8 + Align4(|fixed|);
            var r := NestCompatEnd(m2, p);
            r.Some? && Same(m2.buf, r.value.buf, p + n, |m2.buf|) &&
            Get16(r.value.buf, p) == (m2.Tail() - p) % U16_MOD
  {
    hide CompatStart, Put16, Align4;
    var m1, p, nest := CompatStart(m, maxlen, typ, fixed).value, m.Tail(), m.Tail() + 4 + Align4(|fixed|);
    CompatStartKeeps(m, maxlen, typ, fixed);
    CompatStartStores(m, maxlen, typ, fixed);
    assert Get16(m2.buf, p) == 4 + |fixed|;
    Align4Plus(4, |fixed|);
    var b := Put16(m2.buf, p, m2.Tail() - p);
    Put16Cut(m2.buf, p, m2.Tail() - p);
    Put16Cut(b, nest, m2.Tail() - nest);
  }

  /** A forest comes back from the parser exactly when every length in it fits its 16-bit field. */
  lemma {:induction false} WidthExact(m: Message, maxlen: nat, attrs: seq<Attr>)
    requires maxlen <= |m.buf| && m.Tail() <= |m.buf| && Build(m, maxlen, attrs).Some?
    ensures var r := Build(m, maxlen, attrs).value;
            Level(r.buf, m.Tail(), r.Tail() - m.Tail(), attrs) <==> Narrow(attrs)
  {
    hide Build, Narrow, Level, Same;
    var r := Build(m, maxlen, attrs).value;
    BuildGrows(m, maxlen, attrs);
    if Narrow(attrs) {
      RoundTrip(m, maxlen, attrs);
    } else {
      SameSelf(r.buf, m.Tail(), r.Tail());
      WideLevel(m, maxlen, attrs, r.buf, r.Tail() - m.Tail());
    }
  }

  /** Two attributes of 32768 bytes fit their own lengths, but not the nest around them. */
  lemma {:induction false} NestOverflows(m: Message, maxlen: nat, a: Attr)
    requires a == Leaf(1, seq(32764, _ => 0)) && maxlen <= |m.buf| && m.Tail() <= |m.buf|
    requires Build(m, maxlen, [Nest(2, [a, a])]).Some?
    ensures var r := Build(m, maxlen, [Nest(2, [a, a])]).value;
            Narrow([a, a]) && !Level(r.buf, m.Tail(), r.Tail() - m.Tail(), [Nest(2, [a, a])])
  {
    assert [a, a][1..] == [a] && [a][1..] == [];
    assert SizeOne(a) == 32768 && Size([a]) == SizeOne(a) && Size([a, a]) == SizeOne(a) + Size([a]);
    WidthExact(m, maxlen, [Nest(2, [a, a])]);
  }
}
