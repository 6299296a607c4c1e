/** The libnetlink calls on the message buffer they update in place. */
module MessageBuffer {
  import opened Wire
  import opened Attributes

  class NetlinkMessage {
    const buf: array<byte>
    var len: nat

    /** The message as a value. */
    ghost function Model(): Message
      reads this, buf
    {
      Message(buf[..], len)
    }

    /** A zeroed request of `capacity` bytes whose first `headerLength` are in use. */
    constructor (capacity: nat, headerLength: nat)
      ensures fresh(buf) && Model() == Message(seq(capacity, _ => 0), headerLength)
    {
      buf := new byte[capacity](_ => 0);
      len := headerLength;
      new;
      assert buf[..] == seq(capacity, _ => 0);
    }

    /** `addattr_l`: header and payload go to the tail; padding keeps its old bytes. */
    method AddAttr(maxlen: nat, typ: u16, data: seq<byte>) returns (ok: bool)
      requires maxlen <= buf.Length
      modifies this`len, buf
      ensures var r := Attributes.AddAttr(old(Model()), maxlen, typ, data);
              ok == r.Some? && Model() == if ok then r.value else old(Model())
    {
      var tail, rtaLen := Align4(len), 4 + |data|;
      if tail + Align4(rtaLen) > maxlen { return false; }
      CopyTo(buf, tail, Header(rtaLen, typ) + data);
      len := tail + Align4(rtaLen);
      ok := true;
    }

    /** `addattr_nest`: an empty attribute; a failed `addattr_l` is not reported. */
    method AddNest(maxlen: nat, typ: u16) returns (nest: nat)
      requires maxlen <= buf.Length
      modifies this`len, buf
      ensures nest == old(Model()).Tail()
      ensures var r := Attributes.AddAttr(old(Model()), maxlen, typ, []);
              Model() == if r.Some? then r.value else old(Model())
    {
      nest := Align4(len);
      var _ := AddAttr(maxlen, typ, []);
    }

    /** `addattr_nest_end`. */
    method NestEnd(nest: nat) returns (total: nat)
      requires nest + 2 <= buf.Length
      modifies buf
      ensures total == len && Model() == Attributes.NestEnd(old(Model()), nest)
    {
      Store16(buf, nest, Align4(len) - nest);
      total := len;
    }

    /** `addattr_nest_compat`: each of the two attributes is added if it fits, whatever became of the other. */
    method AddNestCompat(maxlen: nat, typ: u16, fixed: seq<byte>) returns (start: nat)
      requires maxlen <= buf.Length
      modifies this`len, buf
      ensures start == old(Model()).Tail()
      ensures var r := Attributes.AddAttr(old(Model()), maxlen, typ, fixed);
              var m := if r.Some? then r.value else old(Model());
              var q := Attributes.AddAttr(m, maxlen, typ, []);
              Model() == if q.Some? then q.value else m
      ensures var r := CompatStart(old(Model()), maxlen, typ, fixed);
              r.Some? ==> Model() == r.value
    {
      start := Align4(len);
      var _ := AddAttr(maxlen, typ, fixed);
      var _ := AddNest(maxlen, typ);
    }

    /** `addattr_nest_compat_end`: the nest is found from the outer length before that is overwritten. */
    method NestCompatEnd(start: nat) returns (total: nat)
      requires start + 2 <= buf.Length && start + Align4(Get16(buf[..], start)) + 2 <= buf.Length
      modifies buf
      ensures total == len && Attributes.NestCompatEnd(old(Model()), start) == Some(Model())
    {
      var nest := start + Align4(Get16(buf[..], start));
      Store16(buf, start, Align4(len) - start);
      total := NestEnd(nest);
    }
  }

  /** `parse_rtattr`: fills the table with the first attribute of each type up to `max`. */
  method ParseRtattr(b: seq<byte>, rta: nat, length: int, tb: array<Option<nat>>, max: nat) returns (deficit: int)
    requires tb.Length == max + 1
    modifies tb
    ensures deficit == Residue(b, rta, length)
    ensures forall t :: 0 <= t <= max ==> tb[t] == Slot(b, Visited(b, rta, length), t)
  {
    hide Slot, Visited, Residue, Get16, Align4;
    forall t | 0 <= t <= max { tb[t] := None; }
    var p, len := rta, length;
    ghost var seen: seq<nat> := [];
    SlotEmpty(b);
    assert [] + Visited(b, p, len) == Visited(b, p, len);
    while RtaOk(b, p, len)
      invariant p >= 0
      invariant Visited(b, rta, length) == seen + Visited(b, p, len)
      invariant Residue(b, rta, length) == Residue(b, p, len)
      invariant forall i :: 0 <= i < |seen| ==> seen[i] + 4 <= |b|
      invariant forall t :: 0 <= t <= max ==> tb[t] == Slot(b, seen, t)
      decreases len
    {
      var typ, n := Get16(b, p + 2), Align4(Get16(b, p));
      forall t ensures Slot(b, seen + [p], t) == if Slot(b, seen, t).Some? then Slot(b, seen, t)
                                                 else if typ == t then Some(p) else None {
        SlotSnoc(b, seen, p, t);
      }
      VisitNext(b, p, len);
      Regroup(seen, p, Visited(b, p + n, len - n));
      if typ <= max && tb[typ].None? { tb[typ] := Some(p); }
      seen := seen + [p];
      p, len := p + n, len - n;
    }
    VisitNext(b, p, len);
    assert seen + [] == seen;
    deficit := len;
  }

  /**
   * `__parse_rtattr_nested_compat`: an error for a payload shorter than the fixed part, an empty table
   * for one without room for a nest, and otherwise the table of the nest.
   */
  method ParseNestedCompat(b: seq<byte>, rta: nat, len: nat, tb: array<Option<nat>>, max: nat) returns (ok: bool)
    requires tb.Length == max + 1 && rta + 2 <= |b| && rta + Get16(b, rta) <= |b|
    modifies tb
    ensures match ParseCompat(b, rta, len)
            case TooShort => !ok && tb[..] == old(tb[..])
            case NoNest => ok && forall t :: 0 <= t <= max ==> tb[t] == None
            case NestAt(nest) =>
              ok && forall t :: 0 <= t <= max ==> tb[t] == Slot(b, Visited(b, nest + 4, PayloadLength(b, nest)), t)
  {
    hide Slot, Visited, Residue;
    if Get16(b, rta) - 4 < len { return false; }
    ok := true;
    if Get16(b, rta) - 4 >= Align4(len) + 4 {
      var nest := rta + 4 + Align4(len);
      var _ := ParseRtattr(b, nest + 4, Get16(b, nest) - 4, tb, max);
    } else {
      forall t | 0 <= t <= max { tb[t] := None; }
    }
  }

  lemma Regroup(a: seq<nat>, x: nat, b: seq<nat>)
    ensures a + ([x] + b) == a + [x] + b
  {
  }

  lemma SlotEmpty(b: seq<byte>)
    ensures forall t :: Slot(b, [], t) == None
  {
  }

  lemma SlotSnoc(b: seq<byte>, v: seq<nat>, p: nat, t: nat)
    requires p + 4 <= |b| && forall i :: 0 <= i < |v| ==> v[i] + 4 <= |b|
    ensures Slot(b, v + [p], t) == if Slot(b, v, t).Some? then Slot(b, v, t)
                                   else if Get16(b, p + 2) == t then Some(p) else None
  {
    if v == [] {
      assert v + [p] == [p];
    } else {
      assert (v + [p])[1..] == v[1..] + [p];
      SlotSnoc(b, v[1..], p, t);
    }
  }
}
