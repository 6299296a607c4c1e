/** Multipath routes of `ip route`: building the nexthop list, and walking it again to print it. */
module Nexthops {
  import opened Wire
  import opened Attributes

  const RTA_GATEWAY: u16 := 5
  const RTA_FLOW: u16 := 11
  const RTNH_F_ONLINK := 4

  type weight = w: int | 1 <= w <= 256 witness 1

  /** One argument of a `nexthop` clause, after its text is parsed. */
  datatype Arg = Via(addr: seq<byte>) | Dev(ifindex: u32) | Weight(w: weight) | Onlink | Realms(realm: u32)

  /** What a printed nexthop shows. */
  datatype Shown = Shown(ifindex: u32, hops: byte, flags: byte, gateway: Option<seq<byte>>, realm: Option<u32>)

  /** The attribute under construction: buffer, `rta_len`, and the offset of the current `rtnexthop`. */
  datatype State = State(buf: seq<byte>, rtaLen: nat, rtnh: nat)

  // ----------------------------------------------------------------- builder

  const EMPTY_HOP: seq<byte> := [8, 0, 0, 0, 0, 0, 0, 0]

  /** The start of one turn of `parse_nexthops`: a zeroed `rtnexthop` of its own size. */
  function Start(s: State): (r: Option<State>)
    ensures r.Some? ==> |r.value.buf| == |s.buf| && r.value.rtnh == s.rtnh && s.rtnh + 8 <= |s.buf|
  {
    if s.rtnh + 8 > |s.buf| then None
    else Some(State(Splice(s.buf, s.rtnh, EMPTY_HOP), s.rtaLen + 8, s.rtnh))
  }

  /** `rta_addattr_l`, then the nexthop's own length grows by header and payload without padding. */
  function AddSub(s: State, typ: u16, data: seq<byte>): (r: Option<State>)
    requires s.rtnh + 8 <= |s.buf|
    ensures r.Some? ==> |r.value.buf| == |s.buf| && r.value.rtnh == s.rtnh
  {
    var p, len := Align4(s.rtaLen), 4 + |data|;
    if p + Align4(len) > |s.buf| then None
    else
      var b := Splice(s.buf, p, Header(len, typ) + data);
      Some(State(Put16(b, s.rtnh, Get16(b, s.rtnh) + len), p + Align4(len), s.rtnh))
  }

  function OrOnlink(flags: byte): byte {
    if flags / RTNH_F_ONLINK % 2 == 1 then flags else (flags + RTNH_F_ONLINK) % 256
  }

  /** One argument of `parse_one_nh`. `None` when the attribute would leave its buffer. */
  function Apply(s: State, a: Arg): (r: Option<State>)
    requires s.rtnh + 8 <= |s.buf|
    ensures r.Some? ==> |r.value.buf| == |s.buf| && r.value.rtnh == s.rtnh
  {
    match a
    case Via(addr) => AddSub(s, RTA_GATEWAY, addr)
    case Realms(realm) => AddSub(s, RTA_FLOW, Le32(realm))
    case Dev(ifindex) => Some(s.(buf := Splice(s.buf, s.rtnh + 4, Le32(ifindex))))
    case Weight(w) => Some(s.(buf := s.buf[s.rtnh + 3 := w - 1]))
    case Onlink => Some(s.(buf := s.buf[s.rtnh + 2 := OrOnlink(s.buf[s.rtnh + 2])]))
  }

  /** `parse_one_nh`. */
  function ApplyAll(s: State, args: seq<Arg>): (r: Option<State>)
    requires s.rtnh + 8 <= |s.buf|
    ensures r.Some? ==> |r.value.buf| == |s.buf| && r.value.rtnh == s.rtnh
    decreases |args|
  {
    if args == [] then Some(s)
    else
      var s1 := Apply(s, args[0]);
      if s1.None? then None else ApplyAll(s1.value, args[1..])
  }

  /** One nexthop, and the step to the next by its own aligned length (`RTNH_NEXT`). */
  function AddHop(s: State, args: seq<Arg>): (r: Option<State>)
    ensures r.Some? ==> |r.value.buf| == |s.buf|
  {
    var s1 := Start(s);
    if s1.None? then None
    else
      var s2 := ApplyAll(s1.value, args);
      if s2.None? then None
      else Some(s2.value.(rtnh := s.rtnh + Align4(Get16(s2.value.buf, s.rtnh))))
  }

  /** The loop of `parse_nexthops`. */
  function AddHops(s: State, hops: seq<seq<Arg>>): (r: Option<State>)
    ensures r.Some? ==> |r.value.buf| == |s.buf|
    decreases |hops|
  {
    if hops == [] then Some(s)
    else
      var s1 := AddHop(s, hops[0]);
      if s1.None? then None else AddHops(s1.value, hops[1..])
  }

  // --------------------------------------------------------------- the meaning

  /** The attributes a clause adds, in order, by the numbers of `rtattr_type_t`. */
  function Subs(args: seq<Arg>): seq<Attr> {
    if args == [] then []
    else
      var a := args[|args| - 1];
      Subs(args[..|args| - 1]) +
      (match a
       case Via(addr) => [Leaf(5, addr)]
       case Realms(realm) => [Leaf(11, Le32(realm))]
       case _ => [])
  }

  /** What a clause means: the last interface and weight, the flag if given, the first gateway and realm. */
  function Meaning(args: seq<Arg>): Shown {
    if args == [] then Shown(0, 0, 0, None, None)
    else
      var m := Meaning(args[..|args| - 1]);
      match args[|args| - 1]
      case Via(addr) => if m.gateway.None? then m.(gateway := Some(addr)) else m
      case Realms(realm) => if m.realm.None? then m.(realm := Some(realm)) else m
      case Dev(ifindex) => m.(ifindex := ifindex)
      case Weight(w) => m.(hops := w - 1)
      case Onlink => m.(flags := 4)
  }

  predicate Aligned(args: seq<Arg>) {
    forall i :: 0 <= i < |args| && args[i].Via? ==> |args[i].addr| % 4 == 0
  }

  /** The lengths of attributes without the padding between them, as `rtnh_len` counts them. */
  function Raw(attrs: seq<Attr>): nat { if attrs == [] then 0 else RawOne(attrs[0]) + Raw(attrs[1..]) }

  function RawOne(a: Attr): nat { if a.Leaf? then 4 + |a.data| else SizeOne(a) }

  lemma {:induction false} RawSnoc(attrs: seq<Attr>, a: Attr)
    ensures Raw(attrs + [a]) == Raw(attrs) + RawOne(a)
  {
    if attrs == [] {
      assert [] + [a] == [a] && [a][1..] == [];
    } else {
      assert (attrs + [a])[1..] == attrs[1..] + [a];
      RawSnoc(attrs[1..], a);
    }
  }

  lemma {:induction false} RawBelow(attrs: seq<Attr>)
    ensures Raw(attrs) <= Size(attrs)
  {
    if attrs != [] { RawBelow(attrs[1..]); }
  }

  /** How far padding makes the attributes of a clause outrun the nexthop's own length. */
  function Slack(args: seq<Arg>): int { Size(Subs(args)) - Raw(Subs(args)) }

  /** No more padding than the step to the next nexthop makes up for; one unaligned gateway never exceeds it. */
  predicate Tight(args: seq<Arg>) { Slack(args) < 4 }

  // -------------------------------------------------------------------- walk

  /** The gateway shown for the nexthop at `p`. */
  function ShownGateway(b: seq<byte>, p: nat, len: int): Option<seq<byte>> {
    var s := Slot(b, Visited(b, p, len), RTA_GATEWAY);
    if s.None? || s.value + Get16(b, s.value) > |b| || Get16(b, s.value) < 4 then None
    else Some(b[s.value + 4..s.value + Get16(b, s.value)])
  }

  function ShownRealm(b: seq<byte>, p: nat, len: int): Option<u32> {
    var s := Slot(b, Visited(b, p, len), RTA_FLOW);
    if s.None? || s.value + 8 > |b| then None else Some(Get32(b, s.value + 4))
  }

  /** One turn of the multipath walk in `print_route`. */
  function ShowHop(b: seq<byte>, p: nat): Shown
    requires p + 8 <= |b|
  {
    var n := Get16(b, p);
    Shown(Get32(b, p + 4), b[p + 3], b[p + 2],
          if n > 8 then ShownGateway(b, p + 8, n - 8) else None,
          if n > 8 then ShownRealm(b, p + 8, n - 8) else None)
  }

  /** The whole walk. `None` is the walk that never ends, on a nexthop of length 0. */
  function Walk(b: seq<byte>, p: nat, len: int): Option<seq<Shown>>
    decreases len
  {
    if len < 8 || p + 8 > |b| || Get16(b, p) > len then Some([])
    else if Get16(b, p) == 0 then None
    else
      var n := Align4(Get16(b, p));
      var rest := Walk(b, p + n, len - n);
      if rest.None? then None else Some([ShowHop(b, p)] + rest.value)
  }

  // ------------------------------------------------------------------ layout

  /** The buffer holds at `p` the nexthop that `args` describe. */
  ghost predicate HopAt(b: seq<byte>, p: nat, args: seq<Arg>) {
    var m := Meaning(args);
    p + 8 + Size(Subs(args)) <= |b| && Get16(b, p) == 8 + Raw(Subs(args)) &&
    b[p + 2] == m.flags && b[p + 3] == m.hops && Get32(b, p + 4) == m.ifindex && Stored(b, p + 8, Subs(args))
  }

  /** The builder's invariant: the attribute ends behind the nexthop's attributes and their padding. */
  ghost predicate Growing(s: State, args: seq<Arg>) {
    s.rtnh % 4 == 0 && |s.buf| < U16_MOD && HopAt(s.buf, s.rtnh, args) &&
    s.rtaLen == s.rtnh + 8 + Size(Subs(args))
  }

  lemma StartGrows(s: State)
    requires s.rtnh % 4 == 0 && s.rtaLen == s.rtnh && |s.buf| < U16_MOD && Start(s).Some?
    ensures Growing(Start(s).value, []) && Same(s.buf, Start(s).value.buf, 0, s.rtnh)
  {
    var b, p := Start(s).value.buf, s.rtnh;
    assert b[p + 0] == EMPTY_HOP[0] && b[p + 1] == EMPTY_HOP[1] && b[p + 2] == EMPTY_HOP[2] && b[p + 3] == EMPTY_HOP[3];
    assert b[p + 4] == EMPTY_HOP[4] && b[p + 5] == EMPTY_HOP[5] && b[p + 6] == EMPTY_HOP[6] && b[p + 7] == EMPTY_HOP[7];
  }

  /** The buffer after an attribute at `q` was added to the nexthop at `p`. */
  function WithSub(buf: seq<byte>, p: nat, q: nat, typ: u16, data: seq<byte>): (r: seq<byte>)
    requires p + 8 <= q && q + 4 + |data| <= |buf|
    ensures |r| == |buf|
  {
    var b := Splice(buf, q, Header(4 + |data|, typ) + data);
    Put16(b, p, Get16(b, p) + 4 + |data|)
  }

  lemma AddSubIs(s: State, typ: u16, data: seq<byte>)
    requires s.rtnh + 8 <= s.rtaLen <= |s.buf| && s.rtaLen % 4 == 0 && AddSub(s, typ, data).Some?
    ensures s.rtaLen + Align4(4 + |data|) <= |s.buf|
    ensures AddSub(s, typ, data) ==
            Some(State(WithSub(s.buf, s.rtnh, s.rtaLen, typ, data), s.rtaLen + Align4(4 + |data|), s.rtnh))
  {
    hide Put16, Splice, Le16, Get16;
  }

  lemma WithSubBytes(buf: seq<byte>, p: nat, q: nat, typ: u16, data: seq<byte>)
    requires p + 8 <= q && q + 4 + |data| <= |buf| && p + Get16(buf, p) <= q && |buf| < U16_MOD
    ensures var r := WithSub(buf, p, q, typ, data);
            Get16(r, p) == Get16(buf, p) + 4 + |data| && Same(buf, r, 0, p) && Same(buf, r, p + 2, q) &&
            r[p + 2] == buf[p + 2] && r[p + 3] == buf[p + 3] && Get32(r, p + 4) == Get32(buf, p + 4)
  {
    hide Put16, Splice, Le16;
    var b := Splice(buf, q, Header(4 + |data|, typ) + data);
    assert Same(buf, b, 0, q);
    Put16Cut(b, p, Get16(b, p) + 4 + |data|);
  }

  lemma WithSubStored(buf: seq<byte>, p: nat, q: nat, typ: u16, data: seq<byte>)
    requires p + 8 <= q && q + Align4(4 + |data|) <= |buf| && p + Get16(buf, p) <= q && |buf| < U16_MOD
    ensures StoredOne(WithSub(buf, p, q, typ, data), q, Leaf(typ, data))
  {
    hide Put16, Splice, Le16, StoredOne;
    var b := Splice(buf, q, Header(4 + |data|, typ) + data);
    assert Same(buf, b, 0, q);
    SubStored(buf, q, typ, data);
    Put16Cut(b, p, Get16(b, p) + 4 + |data|);
    StoredOneFrame(b, WithSub(buf, p, q, typ, data), q, Leaf(typ, data));
  }

  lemma FourSum(p: nat, n: nat)
    requires p % 4 == 0 && n % 4 == 0
    ensures (p + 8 + n) % 4 == 0
  {
  }

  /** An attribute of any length keeps the invariant. */
  lemma {:induction false} AddSubGrows(s: State, typ: u16, data: seq<byte>, args: seq<Arg>, a: Arg)
    requires Growing(s, args) && AddSub(s, typ, data).Some?
    requires Subs(args + [a]) == Subs(args) + [Leaf(typ, data)]
    requires Meaning(args + [a]).(gateway := None, realm := None) == Meaning(args).(gateway := None, realm := None)
    ensures Growing(AddSub(s, typ, data).value, args + [a])
    ensures Same(s.buf, AddSub(s, typ, data).value.buf, 0, s.rtnh)
  {
    hide AddSub, WithSub, Subs, Meaning, Stored, StoredOne, Align4, Same, Get16, Get32, Raw;
    var p, q, subs := s.rtnh, s.rtaLen, Subs(args);
    SizeSnoc(subs, Leaf(typ, data));
    RawSnoc(subs, Leaf(typ, data));
    RawBelow(subs);
    FourSum(p, Size(subs));
    AddSubIs(s, typ, data);
    WithSubBytes(s.buf, p, q, typ, data);
    WithSubStored(s.buf, p, q, typ, data);
    var b := WithSub(s.buf, p, q, typ, data);
    SamePart(s.buf, b, p + 2, q, p + 8, q);
    StoredFrame(s.buf, b, p + 8, subs);
    StoredSnoc(b, p + 8, subs, Leaf(typ, data));
  }

  lemma SubStored(buf: seq<byte>, q: nat, typ: u16, data: seq<byte>)
    requires q + Align4(4 + |data|) <= |buf| && 4 + |data| < U16_MOD
    ensures StoredOne(Splice(buf, q, Header(4 + |data|, typ) + data), q, Leaf(typ, data))
  {
    var b := Splice(buf, q, Header(4 + |data|, typ) + data);
    HasAtSplit(b, q, Header(4 + |data|, typ), data);
    HasAtSplit(b, q, Le16(4 + |data|), Le16(typ));
    Get16OfHasAt(b, q, 4 + |data|);
    Get16OfHasAt(b, q + 2, typ);
  }

  /** `a` applied to a nexthop built from `args` gives the nexthop built from `args` and `a`. */
  ghost predicate Step(s: State, args: seq<Arg>, a: Arg)
    requires s.rtnh + 8 <= |s.buf|
  {
    var r := Apply(s, a);
    r.Some? && Growing(r.value, args + [a]) && Same(s.buf, r.value.buf, 0, s.rtnh)
  }

  lemma {:induction false} ApplyGrows(s: State, args: seq<Arg>, a: Arg)
    requires Growing(s, args) && Apply(s, a).Some?
    ensures Step(s, args, a)
  {
    assert s.rtnh + 8 <= |s.buf|;
    hide *;
    match a
    case Via(addr) => ViaGrows(s, args, a);
    case Realms(realm) => RealmsGrows(s, args, a);
    case Dev(ifindex) => DevGrows(s, args, a);
    case Weight(w) => WeightGrows(s, args, a);
    case Onlink => OnlinkGrows(s, args, a);
  }

  /** Unfolding the meaning of a clause at its last argument. */
  lemma Snoc(args: seq<Arg>, a: Arg)
    ensures (args + [a])[..|args|] == args && (args + [a])[|args|] == a
    ensures a.Dev? || a.Weight? || a.Onlink? ==> Subs(args + [a]) == Subs(args)
  {
    assert (args + [a])[..|args|] == args;
    assert Subs(args) + [] == Subs(args);
  }

  lemma {:induction false} ViaGrows(s: State, args: seq<Arg>, a: Arg)
    requires Growing(s, args) && a.Via? && Apply(s, a).Some?
    ensures Step(s, args, a)
  {
    hide Stored, AddSub;
    Snoc(args, a);
    AddSubGrows(s, RTA_GATEWAY, a.addr, args, a);
  }

  lemma {:induction false} RealmsGrows(s: State, args: seq<Arg>, a: Arg)
    requires Growing(s, args) && a.Realms? && Apply(s, a).Some?
    ensures Step(s, args, a)
  {
    hide Stored, AddSub, Le32;
    Snoc(args, a);
    AddSubGrows(s, RTA_FLOW, Le32(a.realm), args, a);
  }

  lemma {:induction false} DevGrows(s: State, args: seq<Arg>, a: Arg)
    requires Growing(s, args) && a.Dev?
    ensures Step(s, args, a)
  {
    hide Stored, Splice, Le32, Subs;
    Snoc(args, a);
    var b := Splice(s.buf, s.rtnh + 4, Le32(a.ifindex));
    HasAtSlice(b, s.rtnh + 4, Le32(a.ifindex));
    Get32OfLe32(b, s.rtnh + 4, a.ifindex);
    SetGrows(s, args, a, b);
  }

  lemma {:induction false} WeightGrows(s: State, args: seq<Arg>, a: Arg)
    requires Growing(s, args) && a.Weight?
    ensures Step(s, args, a)
  {
    hide Stored, Subs;
    Snoc(args, a);
    SetGrows(s, args, a, s.buf[s.rtnh + 3 := a.w - 1]);
  }

  lemma {:induction false} OnlinkGrows(s: State, args: seq<Arg>, a: Arg)
    requires Growing(s, args) && a.Onlink?
    ensures Step(s, args, a)
  {
    hide Stored, Subs;
    Snoc(args, a);
    FlagsOf(args);
    SetGrows(s, args, a, s.buf[s.rtnh + 2 := RTNH_F_ONLINK]);
  }

  /** The arguments that only set a field of the `rtnexthop`. */
  lemma {:induction false} SetGrows(s: State, args: seq<Arg>, a: Arg, b: seq<byte>)
    requires Growing(s, args) && Subs(args + [a]) == Subs(args)
    requires Same(s.buf, b, 0, s.rtnh + 2) && Same(s.buf, b, s.rtnh + 8, |b|)
    requires var p, m := s.rtnh, Meaning(args + [a]);
             b[p + 2] == m.flags && b[p + 3] == m.hops && Get32(b, p + 4) == m.ifindex
    ensures Growing(s.(buf := b), args + [a]) && Same(s.buf, b, 0, s.rtnh)
  {
    hide Stored, Subs, Meaning;
    StoredFrame(s.buf, b, s.rtnh + 8, Subs(args));
  }

  lemma FlagsOf(args: seq<Arg>)
    ensures Meaning(args).flags == 0 || Meaning(args).flags == RTNH_F_ONLINK
  {}

  lemma ApplyNone(s: State)
    requires s.rtnh + 8 <= |s.buf|
    ensures ApplyAll(s, []) == Some(s)
  {
  }

  lemma ApplyCons(s: State, a: Arg, rest: seq<Arg>)
    requires s.rtnh + 8 <= |s.buf|
    ensures ApplyAll(s, [a] + rest) == if Apply(s, a).None? then None else ApplyAll(Apply(s, a).value, rest)
  {
    assert ([a] + rest)[1..] == rest;
  }

  lemma TakeOne(done: seq<Arg>, args: seq<Arg>)
    requires args != []
    ensures args == [args[0]] + args[1..] && done + [args[0]] + args[1..] == done + args
  {
  }

  lemma {:induction false} ApplyAllGrows(s: State, done: seq<Arg>, args: seq<Arg>)
    requires Growing(s, done) && ApplyAll(s, args).Some?
    ensures Growing(ApplyAll(s, args).value, done + args) && Same(s.buf, ApplyAll(s, args).value.buf, 0, s.rtnh)
    decreases |args|
  {
    assert s.rtnh + 8 <= |s.buf|;
    hide Growing, Apply, ApplyAll, Same;
    if args == [] {
      assert done + args == done;
      ApplyNone(s);
      SameSelf(s.buf, 0, s.rtnh);
    } else {
      TakeOne(done, args);
      ApplyCons(s, args[0], args[1..]);
      ApplyGrows(s, done, args[0]);
      var s1 := Apply(s, args[0]).value;
      ApplyAllGrows(s1, done + [args[0]], args[1..]);
      SameTrans(s.buf, s1.buf, ApplyAll(s, args).value.buf, 0, s.rtnh);
    }
  }

  // ---------------------------------------------------------- lists of nexthops

  function HopSize(args: seq<Arg>): nat { 8 + Size(Subs(args)) }

  function HopsSize(hops: seq<seq<Arg>>): nat {
    if hops == [] then 0 else HopSize(hops[0]) + HopsSize(hops[1..])
  }

  function Meanings(hops: seq<seq<Arg>>): seq<Shown> {
    if hops == [] then [] else [Meaning(hops[0])] + Meanings(hops[1..])
  }

  /** Every clause but the last is tight, so that the next nexthop starts behind its attributes. */
  predicate Chained(hops: seq<seq<Arg>>) {
    forall i :: 0 <= i < |hops| - 1 ==> Tight(hops[i])
  }

  ghost predicate HopsAt(b: seq<byte>, p: nat, hops: seq<seq<Arg>>)
    decreases |hops|
  {
    hops == [] || (HopAt(b, p, hops[0]) && HopsAt(b, p + HopSize(hops[0]), hops[1..]))
  }

  /** The state between two nexthops: the next one starts where the attribute ends. */
  predicate Between(s: State) { s.rtnh % 4 == 0 && s.rtaLen == s.rtnh && |s.buf| < U16_MOD }

  lemma {:induction false} AddHopStores(s: State, args: seq<Arg>)
    requires Between(s) && AddHop(s, args).Some?
    ensures var r := AddHop(s, args).value;
            r.rtaLen == s.rtnh + HopSize(args) <= |s.buf| && (Tight(args) ==> Between(r)) &&
            Same(s.buf, r.buf, 0, s.rtnh) && HopAt(r.buf, s.rtnh, args)
  {
    hide Stored, Start, ApplyAll, Subs, Meaning, Raw, Tight;
    var s1 := Start(s).value;
    StartGrows(s);
    ApplyAllGrows(s1, [], args);
    assert [] + args == args;
    if Tight(args) { TightStep(args); }
    FourSum(s.rtnh, Size(Subs(args)));
  }

  /** In a tight clause the aligned nexthop length is the room its attributes take. */
  lemma TightStep(args: seq<Arg>)
    requires Tight(args)
    ensures Align4(8 + Raw(Subs(args))) == HopSize(args)
  {
    hide Subs, Size, Raw;
    RawBelow(Subs(args));
  }

  /** What the step over the last nexthop leaves is too short for another one when the padding is below eight bytes. */
  lemma LastStep(args: seq<Arg>)
    requires Slack(args) < 8
    ensures 0 <= HopSize(args) - Align4(8 + Raw(Subs(args))) < 8
  {
    hide Subs, Raw;
    RawBelow(Subs(args));
  }

  lemma {:induction false} AddHopsStores(s: State, hops: seq<seq<Arg>>)
    requires Between(s) && s.rtnh <= |s.buf| && Chained(hops) && AddHops(s, hops).Some?
    ensures var r := AddHops(s, hops).value;
            r.rtaLen == s.rtnh + HopsSize(hops) <= |s.buf| &&
            (hops == [] || Tight(hops[|hops| - 1]) ==> r.rtnh == r.rtaLen) &&
            Same(s.buf, r.buf, 0, s.rtnh) && HopsAt(r.buf, s.rtnh, hops)
    decreases |hops|
  {
    hide AddHop, HopAt, HopSize, Same, Tight;
    if hops == [] {
      SameSelf(s.buf, 0, s.rtnh);
    } else {
      var s1 := AddHop(s, hops[0]).value;
      AddHopStores(s, hops[0]);
      if |hops| > 1 {
        assert forall i :: 0 <= i < |hops[1..]| ==> hops[1..][i] == hops[i + 1];
        AddHopsStores(s1, hops[1..]);
        var r := AddHops(s1, hops[1..]).value;
        SamePart(s1.buf, r.buf, 0, s1.rtnh, s.rtnh, s1.rtnh);
        SamePart(s1.buf, r.buf, 0, s1.rtnh, 0, s.rtnh);
        SameTrans(s.buf, s1.buf, r.buf, 0, s.rtnh);
        HopAtFrame(s1.buf, r.buf, s.rtnh, hops[0]);
      }
    }
  }

  lemma {:induction false} HopAtFrame(b: seq<byte>, b': seq<byte>, p: nat, args: seq<Arg>)
    requires HopAt(b, p, args) && Same(b, b', p, p + HopSize(args))
    ensures HopAt(b', p, args)
  {
    hide Stored, Subs, Meaning;
    StoredFrame(b, b', p + 8, Subs(args));
  }

  lemma {:induction false} HopsAtMove(b: seq<byte>, p: nat, b': seq<byte>, p': nat, hops: seq<seq<Arg>>)
    requires p + HopsSize(hops) <= |b| && HopsAt(b, p, hops) && HasAt(b', p', b[p..p + HopsSize(hops)])
    ensures HopsAt(b', p', hops)
    decreases |hops|
  {
    hide HasAt, HopAt, HopSize;
    if hops != [] {
      var n, all := HopSize(hops[0]), HopsSize(hops);
      HasAtPart(b', p', b, p, all, 0, n);
      HopAtMove(b, p, b', p', hops[0]);
      HasAtPart(b', p', b, p, all, n, all - n);
      HopsAtMove(b, p + n, b', p' + n, hops[1..]);
    }
  }

  lemma {:induction false} HopAtMove(b: seq<byte>, p: nat, b': seq<byte>, p': nat, args: seq<Arg>)
    requires HopAt(b, p, args) && HasAt(b', p', b[p..p + HopSize(args)])
    ensures HopAt(b', p', args)
  {
    hide Stored, Subs, Meaning;
    var n := HopSize(args);
    var t := b[p..p + n];
    Get16Part(b', p', b, p, n, 0);
    assert b'[p' + 2] == t[2] && b'[p' + 3] == t[3];
    Get16Part(b', p', b, p, n, 4);
    Get16Part(b', p', b, p, n, 6);
    HasAtPart(b', p', b, p, n, 8, n - 8);
    StoredMove(b, p + 8, b', p' + 8, Subs(args));
  }

  // ------------------------------------------------------------ what is shown

  /** The first attribute of type `t`. */
  function FirstOf(attrs: seq<Attr>, t: u16): Option<Attr> {
    if attrs == [] then None
    else if attrs[0].typ == t then Some(attrs[0])
    else FirstOf(attrs[1..], t)
  }

  lemma {:induction false} FirstOfAppend(a: seq<Attr>, b: seq<Attr>, t: u16)
    ensures FirstOf(a + b, t) == if FirstOf(a, t).Some? then FirstOf(a, t) else FirstOf(b, t)
  {
    if a == [] {
      assert a + b == b;
    } else {
      assert (a + b)[1..] == a[1..] + b;
      FirstOfAppend(a[1..], b, t);
    }
  }

  /** The attributes the parser reaches when the length it is given is `short` of what they take. */
  function Reached(attrs: seq<Attr>, short: nat): (r: seq<Attr>)
    ensures |r| <= |attrs|
  {
    if attrs == [] || RawOne(attrs[0]) > Size(attrs) - short then []
    else [attrs[0]] + Reached(attrs[1..], short)
  }

  /** What a clause adds: gateways of any length, and realms of four bytes. */
  predicate IsSub(a: Attr) { a.Leaf? && (a.typ == RTA_GATEWAY || (a.typ == RTA_FLOW && |a.data| == 4)) }

  predicate AllSubs(attrs: seq<Attr>) { forall i :: 0 <= i < |attrs| ==> IsSub(attrs[i]) }

  /** Where the first attribute of type `t` starts, padding included. */
  function Offset(attrs: seq<Attr>, t: u16): nat {
    if attrs == [] || attrs[0].typ == t then 0 else SizeOne(attrs[0]) + Offset(attrs[1..], t)
  }

  /** The first attribute of a type is reached exactly when it ends within the given length. */
  lemma {:induction false} ReachedFirstOf(attrs: seq<Attr>, short: nat, t: u16)
    ensures var f := FirstOf(attrs, t);
            FirstOf(Reached(attrs, short), t) ==
            if f.Some? && Offset(attrs, t) + RawOne(f.value) <= Size(attrs) - short then f else None
  {
    if attrs != [] {
      ReachedFirstOf(attrs[1..], short, t);
      FirstStep(attrs[0], Reached(attrs[1..], short), t);
    }
  }

  /** Realms are not padded, so the first gateway ends within the unpadded length. */
  lemma {:induction false} GatewayFits(attrs: seq<Attr>)
    requires AllSubs(attrs) && FirstOf(attrs, RTA_GATEWAY).Some?
    ensures Offset(attrs, RTA_GATEWAY) + RawOne(FirstOf(attrs, RTA_GATEWAY).value) <= Raw(attrs)
  {
    if attrs[0].typ != RTA_GATEWAY { GatewayFits(attrs[1..]); }
  }

  lemma {:induction false} FirstFits(attrs: seq<Attr>, t: u16)
    requires FirstOf(attrs, t).Some?
    ensures Offset(attrs, t) + SizeOne(FirstOf(attrs, t).value) <= Size(attrs)
  {
    if attrs[0].typ != t { FirstFits(attrs[1..], t); }
  }

  /** The parser's slot is the first reached attribute of its type. */
  lemma {:induction false} SlotShows(b: seq<byte>, p: nat, attrs: seq<Attr>, short: nat, t: u16)
    requires p + Size(attrs) <= |b| && Stored(b, p, attrs) && AllSubs(attrs)
    ensures var s, f := Slot(b, Visited(b, p, Size(attrs) - short), t), FirstOf(Reached(attrs, short), t);
            s.Some? == f.Some? && (s.Some? ==> f.value.Leaf? && StoredOne(b, s.value, f.value))
    decreases |attrs|
  {
    hide StoredOne, Get16, Align4, Visited, Slot, FirstOf, Reached, Size, Raw, SizeOne, RawOne, RtaOk;
    if attrs == [] {
      EmptySlot(b, p, short, t);
    } else {
      var a, rest, len := attrs[0], attrs[1..], Size(attrs) - short;
      LeafLength(b, p, a);
      ReachStep(attrs, short);
      RtaOkIs(b, p, len);
      VisitNext(b, p, len);
      if RtaOk(b, p, len) {
        SlotCons(b, p, Visited(b, p + SizeOne(a), len - SizeOne(a)), t);
        assert AllSubs(rest);
        SlotShows(b, p + SizeOne(a), rest, short, t);
        FirstStep(a, Reached(rest, short), t);
      } else {
        EmptySlot(b, p, short, t);
      }
    }
  }

  lemma RtaOkIs(b: seq<byte>, p: nat, len: int)
    requires p + 4 <= |b| && 4 <= Get16(b, p)
    ensures RtaOk(b, p, len) <==> Get16(b, p) <= len
  {
  }

  lemma EmptySlot(b: seq<byte>, p: nat, short: nat, t: u16)
    ensures FirstOf([], t) == None && Slot(b, [], t) == None && Reached([], short) == []
    ensures Visited(b, p, Size([]) - short) == []
  {
  }

  lemma FirstStep(a: Attr, rest: seq<Attr>, t: u16)
    ensures FirstOf([a] + rest, t) == if a.typ == t then Some(a) else FirstOf(rest, t)
  {
    assert ([a] + rest)[1..] == rest;
  }

  lemma SlotCons(b: seq<byte>, p: nat, v: seq<nat>, t: u16)
    requires p + 4 <= |b| && forall i :: 0 <= i < |v| ==> v[i] + 4 <= |b|
    ensures Slot(b, [p] + v, t) == if Get16(b, p + 2) == t then Some(p) else Slot(b, v, t)
  {
    assert ([p] + v)[1..] == v;
  }

  /** An attribute is in reach exactly when its own length fits what is left. */
  lemma ReachStep(attrs: seq<Attr>, short: nat)
    requires attrs != []
    ensures Size(attrs) == SizeOne(attrs[0]) + Size(attrs[1..]) && 4 <= RawOne(attrs[0])
    ensures Reached(attrs, short) ==
            if RawOne(attrs[0]) <= Size(attrs) - short then [attrs[0]] + Reached(attrs[1..], short) else []
  {
  }

  lemma LeafLength(b: seq<byte>, p: nat, a: Attr)
    requires StoredOne(b, p, a) && a.Leaf?
    ensures p + 4 <= |b| && Get16(b, p) == RawOne(a) && Align4(Get16(b, p)) == SizeOne(a) && Get16(b, p + 2) == a.typ
  {
  }

  lemma {:induction false} MeaningFirst(args: seq<Arg>)
    ensures var m, g := Meaning(args), FirstOf(Subs(args), RTA_GATEWAY);
            m.gateway == if g.Some? && g.value.Leaf? then Some(g.value.data) else None
    ensures var m, f := Meaning(args), FirstOf(Subs(args), RTA_FLOW);
            f == if m.realm.Some? then Some(Leaf(RTA_FLOW, Le32(m.realm.value))) else None
    ensures AllSubs(Subs(args))
    decreases |args|
  {
    if args != [] {
      var init, a := args[..|args| - 1], args[|args| - 1];
      MeaningFirst(init);
      var last := match a case Via(addr) => [Leaf(RTA_GATEWAY, addr)]
                          case Realms(realm) => [Leaf(RTA_FLOW, Le32(realm))]
                          case _ => [];
      assert Subs(args) == Subs(init) + last;
      FirstOfAppend(Subs(init), last, RTA_GATEWAY);
      FirstOfAppend(Subs(init), last, RTA_FLOW);
      FirstOfLeaf(Subs(init), RTA_GATEWAY);
    }
  }

  lemma FirstOfLeaf(attrs: seq<Attr>, t: u16)
    requires AllSubs(attrs)
    ensures FirstOf(attrs, t).Some? ==> FirstOf(attrs, t).value.Leaf? && FirstOf(attrs, t).value.typ == t
  {}

  /** The clause's first realm, with the padding before it, ends beyond the unpadded length the nexthop counts. */
  predicate LosesRealm(args: seq<Arg>) {
    var subs := Subs(args);
    FirstOf(subs, RTA_FLOW).Some? && Offset(subs, RTA_FLOW) + 8 > Raw(subs)
  }

  /** What a clause is shown as. */
  function Seen(args: seq<Arg>): Shown {
    if LosesRealm(args) then Meaning(args).(realm := None) else Meaning(args)
  }

  lemma {:induction false} SlackZero(args: seq<Arg>)
    ensures Slack(args) >= 0 && (Slack(args) == 0 <==> Aligned(args))
  {
    if args != [] {
      var init, a := args[..|args| - 1], args[|args| - 1];
      SlackZero(init);
      SlackStep(args);
      AlignedStep(args);
      hide Slack, Aligned;
    }
  }

  lemma AlignedStep(args: seq<Arg>)
    requires args != []
    ensures var init, a := args[..|args| - 1], args[|args| - 1];
            Aligned(args) <==> Aligned(init) && (a.Via? ==> |a.addr| % 4 == 0)
  {
  }

  /** Only a gateway adds padding, unless its length is a multiple of four. */
  lemma SlackStep(args: seq<Arg>)
    requires args != []
    ensures var init, a := args[..|args| - 1], args[|args| - 1];
            var d := Slack(args) - Slack(init);
            d >= 0 && (d == 0 <==> (a.Via? ==> |a.addr| % 4 == 0))
  {
    hide Size, Raw;
    var init, a := args[..|args| - 1], args[|args| - 1];
    if a.Via? || a.Realms? {
      var l := if a.Via? then Leaf(RTA_GATEWAY, a.addr) else Leaf(RTA_FLOW, Le32(a.realm));
      assert Subs(args) == Subs(init) + [l];
      SizeSnoc(Subs(init), l);
      RawSnoc(Subs(init), l);
    } else {
      assert Subs(init) + [] == Subs(init);
    }
  }

  /** The parser reaches the first gateway of a clause, and its first realm unless that is lost. */
  lemma ReachedFirst(args: seq<Arg>)
    ensures Slack(args) >= 0
    ensures var subs, r := Subs(args), Reached(Subs(args), Slack(args));
            FirstOf(r, RTA_GATEWAY) == FirstOf(subs, RTA_GATEWAY) &&
            FirstOf(r, RTA_FLOW) == if LosesRealm(args) then None else FirstOf(subs, RTA_FLOW)
  {
    var subs := Subs(args);
    SlackZero(args);
    MeaningFirst(args);
    FirstOfLeaf(subs, RTA_FLOW);
    hide Subs, Meaning, AllSubs, Reached, FirstOf, Size, Raw, Offset, Le32;
    ReachedFirstOf(subs, Slack(args), RTA_GATEWAY);
    ReachedFirstOf(subs, Slack(args), RTA_FLOW);
    if FirstOf(subs, RTA_GATEWAY).Some? { GatewayFits(subs); }
  }

  /** A stored nexthop is shown as what the clause means, but for a lost realm. */
  lemma {:induction false} HopShown(b: seq<byte>, p: nat, args: seq<Arg>)
    requires HopAt(b, p, args)
    ensures ShowHop(b, p) == Seen(args)
  {
    hide Stored, LosesRealm, Subs, Meaning, FirstOf, Reached, ShownGateway, ShownRealm;
    var subs, q := Subs(args), p + 8;
    MeaningFirst(args);
    ReachedFirst(args);
    hide AllSubs;
    if subs != [] {
      GatewayShown(b, q, subs, Slack(args));
      RealmShown(b, q, subs, Slack(args), Seen(args).realm);
    } else {
      EmptySlot(b, p, 0, RTA_GATEWAY);
      EmptySlot(b, p, 0, RTA_FLOW);
    }
  }

  lemma {:induction false} GatewayShown(b: seq<byte>, q: nat, subs: seq<Attr>, short: nat)
    requires q + Size(subs) <= |b| && Stored(b, q, subs) && AllSubs(subs)
    ensures var g := FirstOf(Reached(subs, short), RTA_GATEWAY);
            ShownGateway(b, q, Size(subs) - short) == if g.Some? && g.value.Leaf? then Some(g.value.data) else None
  {
    hide Stored, Visited, Slot, Size, FirstOf, Reached;
    SlotShows(b, q, subs, short, RTA_GATEWAY);
    var g := FirstOf(Reached(subs, short), RTA_GATEWAY);
    if g.Some? { HasAtSlice(b, Slot(b, Visited(b, q, Size(subs) - short), RTA_GATEWAY).value + 4, g.value.data); }
  }

  lemma {:induction false} RealmShown(b: seq<byte>, q: nat, subs: seq<Attr>, short: nat, realm: Option<u32>)
    requires q + Size(subs) <= |b| && Stored(b, q, subs) && AllSubs(subs)
    requires FirstOf(Reached(subs, short), RTA_FLOW) ==
             if realm.Some? then Some(Leaf(RTA_FLOW, Le32(realm.value))) else None
    ensures ShownRealm(b, q, Size(subs) - short) == realm
  {
    hide Le32, Stored, Visited, Slot, Size, FirstOf, Reached;
    SlotShows(b, q, subs, short, RTA_FLOW);
    if realm.Some? {
      var s := Slot(b, Visited(b, q, Size(subs) - short), RTA_FLOW).value;
      HasAtSlice(b, s + 4, Le32(realm.value));
      Get32OfLe32(b, s + 4, realm.value);
    }
  }

  function SeenAll(hops: seq<seq<Arg>>): seq<Shown> {
    if hops == [] then [] else [Seen(hops[0])] + SeenAll(hops[1..])
  }

  /** The list is walked to its end: its clauses are chained and the last leaves no room for one more nexthop. */
  predicate Walkable(hops: seq<seq<Arg>>) {
    Chained(hops) && (hops != [] ==> Slack(hops[|hops| - 1]) < 8)
  }

  /** One turn of the walk. */
  lemma WalkStep(b: seq<byte>, p: nat, len: int)
    requires p + 8 <= |b| && 8 <= len && 0 < Get16(b, p) <= len
    ensures var n := Align4(Get16(b, p));
            var rest := Walk(b, p + n, len - n);
            rest.Some? ==> Walk(b, p, len) == Some([ShowHop(b, p)] + rest.value)
  {
    hide ShowHop;
  }

  /** The walk stops where no nexthop has room. */
  lemma WalkEnds(b: seq<byte>, p: nat, len: int)
    requires len < 8
    ensures Walk(b, p, len) == Some([])
  {
  }

  lemma HopAtLength(b: seq<byte>, p: nat, args: seq<Arg>)
    requires HopAt(b, p, args)
    ensures p + 8 <= |b| && Get16(b, p) == 8 + Raw(Subs(args)) && 8 <= Get16(b, p) <= HopSize(args)
  {
    hide Stored, Subs, Raw, Meaning, Get16;
    RawBelow(Subs(args));
  }

  lemma {:induction false} WalkShows(b: seq<byte>, p: nat, hops: seq<seq<Arg>>)
    requires p + HopsSize(hops) <= |b| && HopsAt(b, p, hops) && Walkable(hops)
    ensures Walk(b, p, HopsSize(hops)) == Some(SeenAll(hops))
    decreases |hops|
  {
    hide Seen, Subs, ShowHop, Tight, Raw, Slack, HopAt, HopSize, Get16, Align4, Walk;
    if hops == [] {
      WalkEnds(b, p, 0);
    } else {
      var first, rest, len := hops[0], hops[1..], HopsSize(hops);
      HopAtLength(b, p, first);
      var n := Align4(Get16(b, p));
      HopShown(b, p, first);
      WalkStep(b, p, len);
      if rest == [] {
        LastStep(first);
        WalkEnds(b, p + n, len - n);
      } else {
        TightStep(first);
        assert forall i :: 0 <= i < |rest| ==> rest[i] == hops[i + 1];
        WalkShows(b, p + n, rest);
      }
    }
  }

  lemma {:induction false} SeenExact(hops: seq<seq<Arg>>)
    ensures SeenAll(hops) == Meanings(hops) <==> forall i :: 0 <= i < |hops| ==> !LosesRealm(hops[i])
  {
    hide LosesRealm;
    if hops != [] {
      SeenExact(hops[1..]);
      var x, y, xs, ys := Seen(hops[0]), Meaning(hops[0]), SeenAll(hops[1..]), Meanings(hops[1..]);
      assert ([x] + xs)[0] == x && ([x] + xs)[1..] == xs && ([y] + ys)[0] == y && ([y] + ys)[1..] == ys;
      LostWasThere(hops[0]);
      assert forall i :: 0 <= i < |hops[1..]| ==> hops[1..][i] == hops[i + 1];
      assert forall i :: 0 < i < |hops| ==> hops[i] == hops[1..][i - 1];
    }
  }

  /** A lost realm is one the clause gave. */
  lemma LostWasThere(args: seq<Arg>)
    ensures Seen(args) == Meaning(args) <==> !LosesRealm(args)
  {
    if LosesRealm(args) { MeaningFirst(args); }
  }

  /** `parse_nexthops`: the attribute starts with its own 4-byte header. */
  function Begin(buf: seq<byte>): State { State(buf, 4, 4) }

  /** The payload handed to `addattr_l`; `None` when the list does not fit the buffer. */
  function Multipath(buf: seq<byte>, hops: seq<seq<Arg>>): Option<seq<byte>> {
    var s := AddHops(Begin(buf), hops);
    if s.None? || !(4 <= s.value.rtaLen <= |s.value.buf|) then None
    else Some(s.value.buf[4..s.value.rtaLen])
  }

  // ------------------------------------------------------------------ what fits

  /** An argument is refused exactly when its attribute would leave the buffer. */
  lemma ApplyFits(s: State, args: seq<Arg>, a: Arg)
    requires Growing(s, args)
    ensures s.rtnh + 8 <= |s.buf|
    ensures Apply(s, a).Some? <==> s.rtnh + 8 + Size(Subs(args + [a])) <= |s.buf|
  {
    hide Stored, Splice, Put16, Le32, Get16, Get32, Meaning;
    Snoc(args, a);
    hide Size, Raw;
    FourSum(s.rtnh, Size(Subs(args)));
    if a.Via? { SizeSnoc(Subs(args), Leaf(5, a.addr)); }
    if a.Realms? { SizeSnoc(Subs(args), Leaf(11, Le32(a.realm))); }
  }

  lemma {:induction false} SubsGrow(done: seq<Arg>, args: seq<Arg>)
    ensures Size(Subs(done)) <= Size(Subs(done + args))
    decreases |args|
  {
    if args == [] {
      assert done + args == done;
    } else {
      var n := |args| - 1;
      SubsGrow(done, args[..n]);
      SubsGrowOne(done + args[..n], args[n]);
      assert done + args[..n] + [args[n]] == done + args;
    }
  }

  lemma SubsGrowOne(args: seq<Arg>, a: Arg)
    ensures Size(Subs(args)) <= Size(Subs(args + [a]))
  {
    Snoc(args, a);
    hide Size;
    if a.Via? { SizeSnoc(Subs(args), Leaf(5, a.addr)); }
    if a.Realms? { SizeSnoc(Subs(args), Leaf(11, Le32(a.realm))); }
  }

  lemma {:induction false} ApplyAllFits(s: State, done: seq<Arg>, args: seq<Arg>)
    requires Growing(s, done)
    ensures s.rtnh + 8 <= |s.buf|
    ensures ApplyAll(s, args).Some? <==> s.rtnh + 8 + Size(Subs(done + args)) <= |s.buf|
    decreases |args|
  {
    if args == [] {
      assert done + args == done;
      hide Stored, Meaning, Subs, Raw;
      ApplyNone(s);
    } else {
      ApplyFits(s, done, args[0]);
      hide Growing, Apply, ApplyAll, Subs, Size, Same;
      TakeOne(done, args);
      ApplyCons(s, args[0], args[1..]);
      SubsGrow(done + [args[0]], args[1..]);
      if Apply(s, args[0]).Some? {
        ApplyGrows(s, done, args[0]);
        ApplyAllFits(Apply(s, args[0]).value, done + [args[0]], args[1..]);
      }
    }
  }

  lemma AddHopFits(s: State, args: seq<Arg>)
    requires Between(s)
    ensures AddHop(s, args).Some? <==> s.rtnh + HopSize(args) <= |s.buf|
  {
    hide ApplyAll, Growing, Subs, Get16;
    assert [] + args == args;
    if Start(s).Some? {
      StartGrows(s);
      hide Start;
      ApplyAllFits(Start(s).value, [], args);
    }
  }

  /** A list of chained clauses is built exactly when it fits the buffer. */
  lemma {:induction false} AddHopsFits(s: State, hops: seq<seq<Arg>>)
    requires Between(s) && s.rtnh <= |s.buf| && Chained(hops)
    ensures AddHops(s, hops).Some? <==> s.rtnh + HopsSize(hops) <= |s.buf|
    decreases |hops|
  {
    hide AddHop, HopSize, Tight, HopAt, Same;
    if hops != [] {
      AddHopFits(s, hops[0]);
      if AddHop(s, hops[0]).Some? && |hops| > 1 {
        AddHopStores(s, hops[0]);
        assert forall i :: 0 <= i < |hops[1..]| ==> hops[1..][i] == hops[i + 1];
        AddHopsFits(AddHop(s, hops[0]).value, hops[1..]);
      }
    }
  }

  lemma MultipathFits(buf: seq<byte>, hops: seq<seq<Arg>>)
    requires |buf| == 1024 && Chained(hops)
    ensures Multipath(buf, hops).Some? <==> 4 + HopsSize(hops) <= 1024
  {
    hide Chained, AddHops, HopsSize, HopsAt, Same, Tight;
    AddHopsFits(Begin(buf), hops);
    if AddHops(Begin(buf), hops).Some? { AddHopsStores(Begin(buf), hops); }
  }

  /**
   * A walkable nexthop list that fits its 1024-byte buffer and the message is walked in order and in
   * full. It is shown with the same interface, flags, weight, first gateway and first realm everywhere
   * exactly when no clause loses its realm.
   */
  lemma {:induction false} MultipathRoundTrip(
    buf: seq<byte>, hops: seq<seq<Arg>>, m: Message, maxlen: nat, typ: u16)
    requires |buf| == 1024 && hops != [] && Walkable(hops) && Multipath(buf, hops).Some?
    requires maxlen <= |m.buf| && AddAttr(m, maxlen, typ, Multipath(buf, hops).value).Some?
    ensures var s := AddHops(Begin(buf), hops).value;
            s.rtaLen == 4 + HopsSize(hops) && (Tight(hops[|hops| - 1]) ==> s.rtnh == s.rtaLen)
    ensures var b := AddAttr(m, maxlen, typ, Multipath(buf, hops).value).value.buf;
            var w := Walk(b, m.Tail() + 4, PayloadLength(b, m.Tail()));
            w == Some(SeenAll(hops)) &&
            (w == Some(Meanings(hops)) <==> forall i :: 0 <= i < |hops| ==> !LosesRealm(hops[i]))
  {
    hide Walk, SeenAll, Meanings, LosesRealm, AddAttr, AddHops, HopsAt, HopsSize, Tight, Same, Get16;
    var s, data := AddHops(Begin(buf), hops).value, Multipath(buf, hops).value;
    AddHopsStores(Begin(buf), hops);
    var r := AddAttr(m, maxlen, typ, data).value;
    AddAttrStores(m, maxlen, typ, data);
    HopsAtMove(s.buf, 4, r.buf, m.Tail() + 4, hops);
    WalkShows(r.buf, m.Tail() + 4, hops);
    SeenExact(hops);
  }

  /** Lists whose gateways all have a multiple of four bytes are tight and lose nothing. */
  lemma AlignedKeepsAll(args: seq<Arg>)
    requires Aligned(args)
    ensures Tight(args) && !LosesRealm(args)
  {
    SlackZero(args);
    MeaningFirst(args);
    FirstOfLeaf(Subs(args), RTA_FLOW);
    if FirstOf(Subs(args), RTA_FLOW).Some? { FirstFits(Subs(args), RTA_FLOW); }
  }

  /** A DECnet gateway of two bytes, then a realm: the nexthop is shown without its realm. */
  lemma {:induction false} ViaThenRealms(
    dev: u32, addr: seq<byte>, realm: u32, buf: seq<byte>, m: Message, maxlen: nat, typ: u16)
    requires |addr| == 2 && |buf| == 1024 && Multipath(buf, [[Dev(dev), Via(addr), Realms(realm)]]).Some?
    requires maxlen <= |m.buf|
    requires AddAttr(m, maxlen, typ, Multipath(buf, [[Dev(dev), Via(addr), Realms(realm)]]).value).Some?
    ensures Meaning([Dev(dev), Via(addr), Realms(realm)]) == Shown(dev, 0, 0, Some(addr), Some(realm))
    ensures var b := AddAttr(m, maxlen, typ, Multipath(buf, [[Dev(dev), Via(addr), Realms(realm)]]).value).value.buf;
            Walk(b, m.Tail() + 4, PayloadLength(b, m.Tail())) == Some([Shown(dev, 0, 0, Some(addr), None)])
  {
    hide Walk, AddAttr, Multipath, Meaning, LosesRealm, HopsSize, Subs, Size, Raw, AddHops, PayloadLength;
    var args := [Dev(dev), Via(addr), Realms(realm)];
    RealmBehind(dev, addr, realm);
    assert [args][1..] == [] && [Seen(args)] + [] == [Seen(args)];
    assert SeenAll([args]) == [Shown(dev, 0, 0, Some(addr), None)];
    MultipathRoundTrip(buf, [args], m, maxlen, typ);
  }

  lemma {:induction false} RealmBehind(dev: u32, addr: seq<byte>, realm: u32)
    requires |addr| == 2
    ensures var args := [Dev(dev), Via(addr), Realms(realm)];
            Tight(args) && LosesRealm(args) && Meaning(args) == Shown(dev, 0, 0, Some(addr), Some(realm))
  {
    hide Le32, Align4;
    var args := [Dev(dev), Via(addr), Realms(realm)];
    var g, f := Leaf(RTA_GATEWAY, addr), Leaf(RTA_FLOW, Le32(realm));
    DevViaSubs(dev, addr);
    assert args[..2] == [Dev(dev), Via(addr)];
    assert Subs(args) == [g] + [f] && [g, f][1..] == [f] && [f][1..] == [];
    assert SizeOne(g) == 8 == SizeOne(f) && RawOne(g) == 6 && RawOne(f) == 8;
    assert Size([f]) == 8 && Raw([f]) == 8;
    assert Slack(args) == 2 && Raw([g, f]) == 14;
    assert FirstOf([f], RTA_FLOW) == Some(f) && FirstOf([g, f], RTA_FLOW) == Some(f);
    assert Offset([f], RTA_FLOW) == 0 && Offset([g, f], RTA_FLOW) == 8;
  }

  lemma DevViaSubs(dev: u32, addr: seq<byte>)
    ensures Subs([Dev(dev), Via(addr)]) == [Leaf(RTA_GATEWAY, addr)]
    ensures Meaning([Dev(dev), Via(addr)]) == Shown(dev, 0, 0, Some(addr), None)
  {
    var one, two := [Dev(dev)], [Dev(dev), Via(addr)];
    assert two[..1] == one && one[..0] == [];
    assert Subs(one) == [] && Meaning(one) == Shown(dev, 0, 0, None, None);
  }

  // ------------------------------------------------ a clause that is not tight

  lemma StartStep(s: State)
    requires s.rtnh + 8 <= |s.buf|
    ensures var r := Start(s);
            r.Some? && r.value.rtaLen == s.rtaLen + 8 && Get16(r.value.buf, s.rtnh) == 8 &&
            Same(s.buf, r.value.buf, 0, s.rtnh) && Same(s.buf, r.value.buf, s.rtnh + 8, |s.buf|)
  {
    var b := Start(s).value.buf;
    assert b[s.rtnh + 0] == EMPTY_HOP[0] && b[s.rtnh + 1] == EMPTY_HOP[1];
  }

  /** A two-byte gateway takes eight bytes of the attribute and counts six in the nexthop. */
  lemma ShortViaStep(s: State, addr: seq<byte>)
    requires |addr| == 2 && s.rtnh + 8 <= s.rtaLen && s.rtaLen + 8 <= |s.buf| < U16_MOD && s.rtaLen % 4 == 0
    requires s.rtnh + Get16(s.buf, s.rtnh) <= s.rtaLen
    ensures var r := Apply(s, Via(addr));
            r.Some? && r.value.rtaLen == s.rtaLen + 8 &&
            Get16(r.value.buf, s.rtnh) == Get16(s.buf, s.rtnh) + 6 && Same(s.buf, r.value.buf, 0, s.rtnh) &&
            Same(s.buf, r.value.buf, s.rtnh + 8, s.rtaLen) && Same(s.buf, r.value.buf, s.rtaLen + 8, |s.buf|)
  {
    hide Put16, Le16, Get16;
    AddSubIs(s, RTA_GATEWAY, addr);
    WithSubBytes(s.buf, s.rtnh, s.rtaLen, RTA_GATEWAY, addr);
    WithSubBehind(s.buf, s.rtnh, s.rtaLen, RTA_GATEWAY, addr);
  }

  lemma WithSubBehind(buf: seq<byte>, p: nat, q: nat, typ: u16, data: seq<byte>)
    requires p + 8 <= q && q + 4 + |data| <= |buf|
    ensures Same(buf, WithSub(buf, p, q, typ, data), q + 4 + |data|, |buf|)
  {
  }

  lemma DevStep(s: State, ifindex: u32)
    requires s.rtnh + 8 <= |s.buf|
    ensures var r := Apply(s, Dev(ifindex));
            r.Some? && r.value.rtaLen == s.rtaLen && Get16(r.value.buf, s.rtnh) == Get16(s.buf, s.rtnh) &&
            Same(s.buf, r.value.buf, 0, s.rtnh) && Same(s.buf, r.value.buf, s.rtnh + 8, |s.buf|)
  {
  }

  /** Two DECnet gateways: 24 bytes are taken, and the step to the next nexthop goes over 20. */
  lemma {:induction false} TwoShort(buf: seq<byte>, dev: u32, a1: seq<byte>, a2: seq<byte>)
    requires |buf| == 1024 && |a1| == 2 == |a2|
    ensures var r := AddHop(Begin(buf), [Dev(dev), Via(a1), Via(a2)]);
            r.Some? && r.value.rtaLen == 28 && r.value.rtnh == 24 && Get16(r.value.buf, 4) == 20 &&
            Same(buf, r.value.buf, 28, 1024)
  {
    hide Start, Apply, ApplyAll, Get16;
    StartStep(Begin(buf));
    var s1 := Start(Begin(buf)).value;
    DevStep(s1, dev);
    var s2 := Apply(s1, Dev(dev)).value;
    ShortViaStep(s2, a1);
    var s3 := Apply(s2, Via(a1)).value;
    ShortViaStep(s3, a2);
    var s4 := Apply(s3, Via(a2)).value;
    ApplyCons(s1, Dev(dev), [Via(a1), Via(a2)]);
    ApplyCons(s2, Via(a1), [Via(a2)]);
    ApplyCons(s3, Via(a2), []);
    ApplyNone(s4);
    assert [Dev(dev)] + [Via(a1), Via(a2)] == [Dev(dev), Via(a1), Via(a2)];
    assert [Via(a1)] + [Via(a2)] == [Via(a1), Via(a2)] && [Via(a2)] + [] == [Via(a2)];
  }

  /** The next nexthop starts inside the attribute, and its own gateway is put behind a gap. */
  lemma {:induction false} NextShort(s: State, dev: u32, addr: seq<byte>)
    requires |s.buf| == 1024 && s.rtaLen == 28 && s.rtnh == 24 && |addr| == 2
    ensures var r := AddHop(s, [Dev(dev), Via(addr)]);
            r.Some? && r.value.rtaLen == 44 && Get16(r.value.buf, 24) == 14 && Same(s.buf, r.value.buf, 0, 24) &&
            Same(s.buf, r.value.buf, 32, 36)
  {
    hide Start, Apply, ApplyAll, Get16;
    StartStep(s);
    var s1 := Start(s).value;
    DevStep(s1, dev);
    var s2 := Apply(s1, Dev(dev)).value;
    ShortViaStep(s2, addr);
    var s3 := Apply(s2, Via(addr)).value;
    ApplyCons(s1, Dev(dev), [Via(addr)]);
    ApplyCons(s2, Via(addr), []);
    ApplyNone(s3);
    assert [Dev(dev)] + [Via(addr)] == [Dev(dev), Via(addr)] && [Via(addr)] + [] == [Via(addr)];
  }

  /**
   * A clause with two DECnet gateways is not tight, and one that follows it loses its own gateway:
   * the walk looks for it where the buffer was never written.
   */
  lemma {:induction false} NextGatewayLost(
    buf: seq<byte>, dev: u32, a1: seq<byte>, a2: seq<byte>, dev': u32, a3: seq<byte>)
    requires |buf| == 1024 && Get16(buf, 32) < 4 && |a1| == 2 == |a2| && |a3| == 2
    ensures var hops := [[Dev(dev), Via(a1), Via(a2)], [Dev(dev'), Via(a3)]];
            var r := AddHops(Begin(buf), hops);
            r.Some? && r.value.rtaLen == 44 && Meaning(hops[1]).gateway == Some(a3) &&
            var w := Walk(r.value.buf, 4, 40);
            w.Some? && |w.value| == 2 && w.value[1].gateway == None && w != Some(Meanings(hops))
  {
    hide AddHop, Meaning, Visited, Slot;
    var one, two := [Dev(dev), Via(a1), Via(a2)], [Dev(dev'), Via(a3)];
    var hops := [one, two];
    TwoShort(buf, dev, a1, a2);
    var s1 := AddHop(Begin(buf), one).value;
    NextShort(s1, dev', a3);
    var s2 := AddHop(s1, two).value;
    assert hops[1..] == [two] && [two][1..] == [];
    assert AddHops(Begin(buf), hops) == AddHops(s1, [two]) == AddHops(s2, []) == Some(s2);
    DevViaSubs(dev', a3);
    var b := s2.buf;
    assert Get16(b, 4) == 20 && Get16(b, 24) == 14 && Get16(b, 32) < 4;
    NothingAt(b, 32, 6);
    assert Walk(b, 40, 4) == Some([]);
    assert Walk(b, 24, 20) == Some([ShowHop(b, 24)]) by { assert [ShowHop(b, 24)] + [] == [ShowHop(b, 24)]; }
    assert Meanings([two]) == [Meaning(two)] + Meanings([]);
  }

  lemma NothingAt(b: seq<byte>, p: nat, len: int)
    requires p + 4 <= |b| && Get16(b, p) < 4
    ensures ShownGateway(b, p, len) == None
  {
  }

  /**
   * The builder's attribute outruns the nexthop by the padding, so `rtnh + rtnh_len == rta_len`
   * exactly when every gateway length is a multiple of four.
   */
  lemma {:induction false} BuilderInvariantExact(s: State, args: seq<Arg>)
    requires Between(s) && s.rtnh + 8 <= |s.buf| && ApplyAll(Start(s).value, args).Some?
    ensures var r := ApplyAll(Start(s).value, args).value;
            r.rtaLen - (r.rtnh + Get16(r.buf, r.rtnh)) == Slack(args) &&
            (r.rtnh + Get16(r.buf, r.rtnh) == r.rtaLen <==> Aligned(args))
  {
    StartGrows(s);
    hide Stored, ApplyAll, Aligned, Start, Subs, Meaning;
    ApplyAllGrows(Start(s).value, [], args);
    assert [] + args == args;
    SlackZero(args);
  }

  // ------------------------------------------------------------ the two loops

  /** The local buffer of `parse_nexthops` and the two lengths it grows. */
  class Builder {
    const buf: array<byte>
    var rtaLen: nat
    var rtnh: nat

    ghost function Model(): State
      reads this, buf
    {
      State(buf[..], rtaLen, rtnh)
    }

    constructor (contents: seq<byte>)
      ensures fresh(buf) && Model() == Begin(contents)
    {
      buf := new byte[|contents|](i requires 0 <= i < |contents| => contents[i]);
      rtaLen, rtnh := 4, 4;
      new;
      assert buf[..] == contents;
    }

    method StartHop() returns (ok: bool)
      modifies this`rtaLen, buf
      ensures var r := Start(old(Model()));
              ok == r.Some? && (ok ==> Model() == r.value)
    {
      if rtnh + 8 > buf.Length { return false; }
      CopyTo(buf, rtnh, EMPTY_HOP);
      rtaLen := rtaLen + 8;
      ok := true;
    }

    method AddSubAttr(typ: u16, data: seq<byte>) returns (ok: bool)
      requires rtnh + 8 <= buf.Length
      modifies this`rtaLen, buf
      ensures var r := AddSub(old(Model()), typ, data);
              ok == r.Some? && (ok ==> Model() == r.value)
    {
      hide Align4, Splice, Put16, Get16, Le16;
      var p, len := Align4(rtaLen), 4 + |data|;
      if p + Align4(len) > buf.Length { return false; }
      CopyTo(buf, p, Header(len, typ) + data);
      Store16(buf, rtnh, Get16(buf[..], rtnh) + len);
      rtaLen := p + Align4(len);
      ok := true;
    }

    method ApplyArg(a: Arg) returns (ok: bool)
      requires rtnh + 8 <= buf.Length
      modifies this`rtaLen, buf
      ensures var r := Apply(old(Model()), a);
              ok == r.Some? && (ok ==> Model() == r.value)
    {
      hide AddSub, Splice, Le32, OrOnlink;
      ok := true;
      match a
      case Via(addr) => ok := AddSubAttr(RTA_GATEWAY, addr);
      case Realms(realm) => ok := AddSubAttr(RTA_FLOW, Le32(realm));
      case Dev(ifindex) => CopyTo(buf, rtnh + 4, Le32(ifindex));
      case Weight(w) => buf[rtnh + 3] := w - 1;
      case Onlink => buf[rtnh + 2] := OrOnlink(buf[rtnh + 2]);
    }

    /** `parse_one_nh`. */
    method ParseOne(args: seq<Arg>) returns (ok: bool)
      requires rtnh + 8 <= buf.Length
      modifies this`rtaLen, buf
      ensures var r := ApplyAll(old(Model()), args);
              ok == r.Some? && (ok ==> Model() == r.value)
    {
      var i := 0;
      while i < |args|
        invariant 0 <= i <= |args| && rtnh + 8 <= buf.Length
        invariant ApplyAll(old(Model()), args) == ApplyAll(Model(), args[i..])
      {
        assert args[i..][1..] == args[i + 1..];
        ok := ApplyArg(args[i]);
        if !ok { return; }
        i := i + 1;
      }
      ok := true;
    }

    /** One turn of the loop of `parse_nexthops`. */
    method ParseHop(args: seq<Arg>) returns (ok: bool)
      modifies this, buf
      ensures var r := AddHop(old(Model()), args);
              ok == r.Some? && (ok ==> Model() == r.value)
    {
      hide Start, ApplyAll, Align4, Get16;
      ok := StartHop();
      if !ok { return; }
      ok := ParseOne(args);
      if !ok { return; }
      rtnh := rtnh + Align4(Get16(buf[..], rtnh));
    }

    /** `parse_nexthops`, up to the final `addattr_l`. */
    method ParseAll(hops: seq<seq<Arg>>) returns (ok: bool)
      modifies this, buf
      ensures var r := AddHops(old(Model()), hops);
              ok == r.Some? && (ok ==> Model() == r.value)
    {
      hide AddHop;
      var i := 0;
      while i < |hops|
        invariant 0 <= i <= |hops|
        invariant AddHops(old(Model()), hops) == AddHops(Model(), hops[i..])
      {
        assert hops[i..][1..] == hops[i + 1..];
        ok := ParseHop(hops[i]);
        if !ok { return; }
        i := i + 1;
      }
      ok := true;
    }
  }

  /** What is shown in the end when `shown` was shown before `p`. */
  ghost function Remaining(b: seq<byte>, p: nat, len: int, shown: seq<Shown>): Option<seq<Shown>> {
    var rest := Walk(b, p, len);
    if rest.Some? then Some(shown + rest.value) else None
  }

  lemma RemainingNext(b: seq<byte>, p: nat, len: int, shown: seq<Shown>)
    ensures Remaining(b, p, len, []) == Walk(b, p, len)
    ensures Remaining(b, p, len, shown) ==
            if len < 8 || p + 8 > |b| || Get16(b, p) > len then Some(shown)
            else if Get16(b, p) == 0 then None
            else
              var n := Align4(Get16(b, p));
              Remaining(b, p + n, len - n, shown + [ShowHop(b, p)])
  {
    hide ShowHop, Get16, Align4;
    var all := Walk(b, p, len);
    assert all.Some? ==> [] + all.value == all.value;
    assert shown + [] == shown;
    if !(len < 8 || p + 8 > |b| || Get16(b, p) > len) {
      var n := Align4(Get16(b, p));
      var rest := Walk(b, p + n, len - n);
      assert rest.Some? ==> shown + ([ShowHop(b, p)] + rest.value) == shown + [ShowHop(b, p)] + rest.value;
    }
  }

  /** The multipath loop of `print_route`; `ended` is false for the walk that never ends. */
  method PrintMultipath(b: seq<byte>, start: nat, length: int) returns (shown: seq<Shown>, ended: bool)
    ensures Walk(b, start, length) == if ended then Some(shown) else None
  {
    hide Walk, ShowHop, Remaining, Get16;
    var p, len := start, length;
    shown := [];
    RemainingNext(b, p, len, shown);
    while len >= 8 && p + 8 <= |b| && Get16(b, p) <= len
      invariant p >= 0
      invariant Walk(b, start, length) == Remaining(b, p, len, shown)
      decreases len
    {
      RemainingNext(b, p, len, shown);
      if Get16(b, p) == 0 { return shown, false; }
      var n := Align4(Get16(b, p));
      shown := shown + [ShowHop(b, p)];
      p, len := p + n, len - n;
    }
    RemainingNext(b, p, len, shown);
    ended := true;
  }
}
