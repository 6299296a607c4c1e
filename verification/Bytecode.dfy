/** The `inet_diag` filter bytecode: operations, their bytes, the jump machine, and relocation. */
module Bytecode {
  import opened Wire

  const BC_JMP: byte := 1
  const BC_S_GE: byte := 2
  const BC_S_LE: byte := 3
  const BC_D_GE: byte := 4
  const BC_D_LE: byte := 5
  const BC_AUTO: byte := 6
  const BC_S_COND: byte := 7
  const BC_D_COND: byte := 8

  /** One operation with its arguments; its `yes` field is always its own size. */
  datatype Op = Op(code: byte, no: nat, args: seq<byte>) {
    function Size(): (n: nat) ensures n >= 4 { 4 + |args| }
  }

  /** A test the machine applies to the code and the arguments of an operation. */
  type Test = (byte, seq<byte>) -> bool

  datatype Outcome = Accept | Reject | Stuck

  function Jump(no: nat): Op { Op(BC_JMP, no, []) }

  // ------------------------------------------------------------------ bytes

  function OpBytes(op: Op): (b: seq<byte>)
    ensures |b| == op.Size()
  {
    [op.code, op.Size() % 256] + Le16(op.no) + op.args
  }

  function Bytes(ops: seq<Op>): (b: seq<byte>)
    ensures |b| == Len(ops)
  {
    if ops == [] then [] else OpBytes(ops[0]) + Bytes(ops[1..])
  }

  function Len(ops: seq<Op>): nat {
    if ops == [] then 0 else ops[0].Size() + Len(ops[1..])
  }

  lemma LenAppend(a: seq<Op>, b: seq<Op>)
    ensures Len(a + b) == Len(a) + Len(b)
  {
    if a == [] {
      assert a + b == b;
    } else {
      assert (a + b)[1..] == a[1..] + b;
      LenAppend(a[1..], b);
    }
  }

  lemma BytesAppend(a: seq<Op>, b: seq<Op>)
    ensures Bytes(a + b) == Bytes(a) + Bytes(b)
  {
    if a == [] {
      assert a + b == b;
    } else {
      assert (a + b)[1..] == a[1..] + b;
      BytesAppend(a[1..], b);
    }
  }

  // ---------------------------------------------------------------- machine

  /** Running the code from `off` bytes past the first operation. Jumps only go forward. */
  function Exec(ops: seq<Op>, off: int, k: Test): Outcome {
    if ops == [] then
      if off == 0 then Accept else if off == 4 then Reject else Stuck
    else if off == 0 then
      var op := ops[0];
      if op.code != BC_JMP && k(op.code, op.args) then Exec(ops[1..], 0, k)
      else Exec(ops[1..], op.no - op.Size(), k)
    else if off < ops[0].Size() then Stuck
    else Exec(ops[1..], off - ops[0].Size(), k)
  }

  /** The machine on raw bytes: landing on the end accepts, four past it rejects. */
  function Machine(c: seq<byte>, p: nat, k: Test): Outcome
    decreases |c| + 4 - p
  {
    if p == |c| then Accept
    else if p == |c| + 4 then Reject
    else if p + 4 > |c| then Stuck
    else
      var yes, no := c[p + 1], Get16(c, p + 2);
      if yes < 4 || no < 4 || p + yes > |c| || p + no > |c| + 4 then Stuck
      else if c[p] != BC_JMP && k(c[p], c[p + 4..p + yes]) then Machine(c, p + yes, k)
      else Machine(c, p + no, k)
  }

  // --------------------------------------------------------- well-formedness

  /** `off` bytes ahead is an operation boundary, the end, or four bytes past the end. */
  predicate Lands(ops: seq<Op>, off: int) {
    if off == 0 then true
    else if ops == [] then off == 4
    else off >= ops[0].Size() && Lands(ops[1..], off - ops[0].Size())
  }

  /** Every jump goes strictly forward and lands; every `yes` field holds its size. */
  predicate WellFormed(ops: seq<Op>) {
    ops == [] ||
    (ops[0].Size() < U8_MOD && Lands(ops[1..], ops[0].no - ops[0].Size()) && WellFormed(ops[1..]))
  }

  lemma LandsBound(ops: seq<Op>, off: int)
    requires Lands(ops, off)
    ensures 0 <= off <= Len(ops) || off == Len(ops) + 4
  {
    if off != 0 && ops != [] { LandsBound(ops[1..], off - ops[0].Size()); }
  }

  lemma LandsAppend(a: seq<Op>, b: seq<Op>, off: int)
    ensures Lands(a, off) && off <= Len(a) ==> Lands(a + b, off)
    ensures Lands(b, off) ==> Lands(a + b, Len(a) + off)
  {
    if a == [] {
      assert a + b == b;
    } else {
      assert (a + b)[1..] == a[1..] + b;
      LandsAppend(a[1..], b, off - a[0].Size());
      LandsAppend(a[1..], b, off);
      if Lands(b, off) { LandsBound(b, off); }
    }
  }

  /** Well-formed code never gets stuck: from any landing point it accepts or rejects. */
  lemma {:induction false} NeverStuck(ops: seq<Op>, off: int, k: Test)
    requires WellFormed(ops) && Lands(ops, off)
    ensures Exec(ops, off, k) != Stuck
  {
    if ops != [] {
      NeverStuck(ops[1..], if off == 0 then 0 else off - ops[0].Size(), k);
      NeverStuck(ops[1..], ops[0].no - ops[0].Size(), k);
    }
  }

  /** The buffer holds operation `op` at offset `p`: the four fields of its structure. */
  predicate OpAt(c: seq<byte>, p: nat, op: Op) {
    p + op.Size() <= |c| && c[p] == op.code && c[p + 1] == op.Size() &&
    Get16(c, p + 2) == op.no && c[p + 4..p + op.Size()] == op.args
  }

  /** The buffer holds the operations `ops` one after the other from offset `p` on. */
  predicate CodeAt(c: seq<byte>, p: nat, ops: seq<Op>)
    decreases |ops|
  {
    ops == [] || (OpAt(c, p, ops[0]) && CodeAt(c, p + ops[0].Size(), ops[1..]))
  }

  /** An operation whose fields fit their widths is read back from its own bytes, and only from them. */
  lemma OpAtIsBytes(c: seq<byte>, p: nat, op: Op)
    requires p + op.Size() <= |c| && op.Size() < U8_MOD && op.no < U16_MOD
    ensures OpAt(c, p, op) <==> c[p..p + op.Size()] == OpBytes(op)
  {
    var b, t := OpBytes(op), c[p..p + op.Size()];
    assert t[4..] == c[p + 4..p + op.Size()] && b[4..] == op.args;
    assert b[2] == Le16(op.no)[0] && b[3] == Le16(op.no)[1];
    assert t[0] == c[p] && t[1] == c[p + 1] && t[2] == c[p + 2] && t[3] == c[p + 3];
    if OpAt(c, p, op) {
      assert t == t[..4] + t[4..];
      assert b == b[..4] + b[4..];
    }
  }

  /** The bytes of well-formed code read back as that code. */
  lemma {:induction false} BytesAt(c: seq<byte>, p: nat, ops: seq<Op>)
    requires p + Len(ops) <= |c| && c[p..p + Len(ops)] == Bytes(ops)
    requires WellFormed(ops) && Len(ops) + 4 < U16_MOD
    ensures CodeAt(c, p, ops)
    decreases |ops|
  {
    hide OpAt, OpBytes;
    if ops != [] {
      var op, rest := ops[0], ops[1..];
      LandsBound(rest, op.no - op.Size());
      SliceOfBytes(c, p, op, rest);
      OpAtIsBytes(c, p, op);
      BytesAt(c, p + op.Size(), rest);
    }
  }

  /** Reading operations off a buffer determines the bytes, whatever the jumps are. */
  lemma {:induction false} CodeAtBytes(c: seq<byte>, p: nat, ops: seq<Op>)
    requires CodeAt(c, p, ops) && p + Len(ops) <= |c|
    ensures c[p..p + Len(ops)] == Bytes(ops)
    decreases |ops|
  {
    hide OpBytes;
    if ops != [] {
      var op, rest := ops[0], ops[1..];
      CodeAtBytes(c, p + op.Size(), rest);
      OpAtIsBytes(c, p, op);
      SliceOfBytes(c, p, op, rest);
    }
  }

  lemma {:induction false} SliceOfBytes(c: seq<byte>, p: nat, op: Op, rest: seq<Op>)
    requires p + op.Size() + Len(rest) <= |c|
    ensures var q := p + op.Size();
            c[p..q] == OpBytes(op) && c[q..q + Len(rest)] == Bytes(rest)
            <==> c[p..q + Len(rest)] == OpBytes(op) + Bytes(rest)
  {
    var n := op.Size();
    var t, b := c[p..p + n + Len(rest)], OpBytes(op) + Bytes(rest);
    SplitEqual(t, b, n);
    assert t[..n] == c[p..p + n] && t[n..] == c[p + n..p + n + Len(rest)];
  }

  /** The machine at the bytes of one operation. */
  lemma MachineStep(c: seq<byte>, p: nat, op: Op, k: Test)
    requires OpAt(c, p, op) && 4 <= op.no && p + op.no <= |c| + 4
    ensures Machine(c, p, k) ==
            if op.code != BC_JMP && k(op.code, op.args) then Machine(c, p + op.Size(), k) else Machine(c, p + op.no, k)
  {
    hide Get16;
  }

  lemma MachineEnds(c: seq<byte>, k: Test)
    ensures Machine(c, |c|, k) == Accept && Machine(c, |c| + 4, k) == Reject
  {
  }

  /** The byte machine follows the operations one for one. */
  lemma {:induction false} MachineRuns(c: seq<byte>, p: nat, ops: seq<Op>, off: nat, k: Test)
    requires CodeAt(c, p, ops) && p + Len(ops) == |c|
    requires WellFormed(ops) && Lands(ops, off)
    ensures Machine(c, p + off, k) == Exec(ops, off, k)
    decreases |ops|
  {
    hide Machine, OpAt;
    if ops == [] {
      MachineEnds(c, k);
    } else {
      var op, rest := ops[0], ops[1..];
      var q := p + op.Size();
      LandsBound(rest, op.no - op.Size());
      MachineStep(c, p, op, k);
      if off != 0 {
        MachineRuns(c, q, rest, off - op.Size(), k);
      } else if op.code != BC_JMP && k(op.code, op.args) {
        MachineRuns(c, q, rest, 0, k);
      } else {
        MachineRuns(c, q, rest, op.no - op.Size(), k);
      }
    }
  }

  // ------------------------------------------------------------- composition

  /** Code followed by more code: acceptance falls into it, rejection skips its first four bytes. */
  lemma {:induction false} ExecAppend(a: seq<Op>, b: seq<Op>, off: int, k: Test)
    ensures Exec(a, off, k) == Accept ==> Exec(a + b, off, k) == Exec(b, 0, k)
    ensures Exec(a, off, k) == Reject ==> Exec(a + b, off, k) == Exec(b, 4, k)
  {
    if a == [] {
      assert a + b == b;
    } else {
      assert (a + b)[1..] == a[1..] + b;
      ExecAppend(a[1..], b, 0, k);
      ExecAppend(a[1..], b, off - a[0].Size(), k);
      ExecAppend(a[1..], b, a[0].no - a[0].Size(), k);
    }
  }

  /** Jumping over a whole block of code. */
  lemma {:induction false} ExecSkip(a: seq<Op>, b: seq<Op>, off: nat, k: Test)
    ensures Exec(a + b, Len(a) + off, k) == Exec(b, off, k)
  {
    if a == [] {
      assert a + b == b;
    } else {
      assert (a + b)[1..] == a[1..] + b;
      ExecSkip(a[1..], b, off, k);
    }
  }

  lemma {:induction false} ExecExit(a: seq<Op>, off: nat, k: Test)
    ensures Exec(a, Len(a) + off, k) == Exec([], off, k)
  {
    ExecSkip(a, [], off, k);
    assert a + [] == a;
  }

  lemma WellFormedAppend(a: seq<Op>, b: seq<Op>)
    requires WellFormed(a) && WellFormed(b)
    requires b != [] && b[0].Size() == 4
    ensures WellFormed(a + b)
  {
    if a == [] {
      assert a + b == b;
    } else {
      assert (a + b)[1..] == a[1..] + b;
      WellFormedAppend(a[1..], b);
      var off := a[0].no - a[0].Size();
      LandsBound(a[1..], off);
      LandsAppend(a[1..], b, off);
      LandsAppend(a[1..], b, 4);
      assert Lands(b[1..], 0);
      assert Lands(b, 4);
    }
  }

  // ------------------------------------------------------------- relocation

  /** Moving every jump that leaves `ops` by its rejecting exit `reloc` bytes further. */
  function Relocate(ops: seq<Op>, reloc: nat): (r: seq<Op>)
    ensures |r| == |ops|
  {
    if ops == [] then []
    else
      var op := ops[0];
      [if op.no == Len(ops) + 4 then op.(no := op.no + reloc) else op] + Relocate(ops[1..], reloc)
  }

  lemma RelocateLen(ops: seq<Op>, reloc: nat)
    ensures Len(Relocate(ops, reloc)) == Len(ops)
  {}

  /** Where operation `i` goes when its test fails, counted from the start of the code. */
  function Target(ops: seq<Op>, i: nat): nat
    requires i < |ops|
  {
    Len(ops[..i]) + ops[i].no
  }

  /** An offset that `Lands` is the start of some operation, the end, or four bytes past the end. */
  lemma {:induction false} LandsOn(ops: seq<Op>, off: int)
    requires Lands(ops, off)
    ensures off == Len(ops) + 4 || exists j :: 0 <= j <= |ops| && off == Len(ops[..j])
  {
    if off == 0 {
      assert Len(ops[..0]) == 0;
    } else if ops != [] {
      var rest, off' := ops[1..], off - ops[0].Size();
      LandsOn(rest, off');
      if off' != Len(rest) + 4 {
        var j :| 0 <= j <= |rest| && off' == Len(rest[..j]);
        assert ops[..j + 1][1..] == rest[..j];
        assert off == Len(ops[..j + 1]);
      }
    }
  }

  /** In well-formed code every failing test jumps forward to an operation, the end, or the rejecting exit. */
  lemma {:induction false} WellFormedTargets(ops: seq<Op>, i: nat)
    requires WellFormed(ops) && i < |ops|
    ensures Len(ops[..i]) + 4 <= Len(ops[..i]) + ops[i].Size() <= Target(ops, i)
    ensures ops[i].Size() < U8_MOD && ops[i].no <= Len(ops) + 4 && (Len(ops) <= 65531 ==> ops[i].no < U16_MOD)
    ensures Target(ops, i) == Len(ops) + 4 || exists j :: i < j <= |ops| && Target(ops, i) == Len(ops[..j])
  {
    var rest := ops[1..];
    if i == 0 {
      var off := ops[0].no - ops[0].Size();
      LandsOn(rest, off);
      LandsBound(rest, off);
      if off != Len(rest) + 4 {
        var j :| 0 <= j <= |rest| && off == Len(rest[..j]);
        assert ops[..j + 1][1..] == rest[..j];
      }
    } else {
      WellFormedTargets(rest, i - 1);
      assert ops[..i][1..] == rest[..i - 1];
      if Target(ops, i) != Len(ops) + 4 {
        var j :| i - 1 < j <= |rest| && Target(rest, i - 1) == Len(rest[..j]);
        assert ops[..j + 1][1..] == rest[..j];
      }
    }
  }

  /** Relocation changes the rejecting exits and nothing else. */
  lemma {:induction false} RelocateRetargets(ops: seq<Op>, reloc: nat, i: nat)
    requires WellFormed(ops) && i < |ops|
    ensures Relocate(ops, reloc)[i].code == ops[i].code && Relocate(ops, reloc)[i].args == ops[i].args
    ensures Target(ops, i) == Len(ops) + 4 ==> Target(Relocate(ops, reloc), i) == Len(ops) + 4 + reloc
    ensures Target(ops, i) != Len(ops) + 4 ==>
              Target(Relocate(ops, reloc), i) == Target(ops, i) <= Len(ops)
  {
    var r := Relocate(ops, reloc);
    if i == 0 {
      LandsBound(ops[1..], ops[0].no - ops[0].Size());
    } else {
      RelocateRetargets(ops[1..], reloc, i - 1);
      assert ops[..i][1..] == ops[1..][..i - 1];
      assert r[..i][1..] == r[1..][..i - 1];
      assert r[1..] == Relocate(ops[1..], reloc);
    }
  }

  /** After relocation, acceptance falls into `b` and rejection leaves past all of `b`. */
  lemma {:induction false} ExecRelocated(a: seq<Op>, b: seq<Op>, off: nat, k: Test)
    requires WellFormed(a) && Lands(a, off) && off <= Len(a)
    ensures Exec(a, off, k) == Accept ==> Exec(Relocate(a, Len(b)) + b, off, k) == Exec(b, 0, k)
    ensures Exec(a, off, k) == Reject ==> Exec(Relocate(a, Len(b)) + b, off, k) == Reject
  {
    var r := Relocate(a, Len(b)) + b;
    if a == [] {
      assert r == b;
    } else {
      var op, rest := a[0], a[1..];
      assert r[1..] == Relocate(rest, Len(b)) + b && r[0].Size() == op.Size();
      if off != 0 {
        ExecRelocated(rest, b, off - op.Size(), k);
      } else if op.code != BC_JMP && k(op.code, op.args) {
        ExecRelocated(rest, b, 0, k);
      } else if op.no == Len(a) + 4 {
        ExecRelocatedExit(rest, b, k);
      } else {
        LandsBound(rest, op.no - op.Size());
        ExecRelocated(rest, b, op.no - op.Size(), k);
      }
    }
  }

  lemma {:induction false} ExecRelocatedExit(a: seq<Op>, b: seq<Op>, k: Test)
    ensures Exec(a, Len(a) + 4, k) == Reject
    ensures Exec(Relocate(a, Len(b)) + b, Len(a) + 4 + Len(b), k) == Reject
  {
    ExecExit(a, 4, k);
    RelocateLen(a, Len(b));
    ExecSkip(Relocate(a, Len(b)), b, Len(b) + 4, k);
    ExecExit(b, 4, k);
  }

  lemma WellFormedRelocated(a: seq<Op>, b: seq<Op>)
    requires WellFormed(a) && WellFormed(b)
    ensures WellFormed(Relocate(a, Len(b)) + b)
  {
    var r := Relocate(a, Len(b));
    if a == [] {
      assert r + b == b;
    } else {
      var rest := a[1..];
      assert (r + b)[1..] == Relocate(rest, Len(b)) + b;
      WellFormedRelocated(rest, b);
      var off := a[0].no - a[0].Size();
      LandsBound(rest, off);
      RelocateLen(rest, Len(b));
      if a[0].no == Len(a) + 4 {
        LandsEnd(b);
        LandsAppend(Relocate(rest, Len(b)), b, Len(b) + 4);
      } else {
        LandsRelocated(rest, Len(b), off);
        LandsAppend(Relocate(rest, Len(b)), b, off);
      }
    }
  }

  lemma LandsEnd(ops: seq<Op>)
    ensures Lands(ops, Len(ops) + 4)
  {}

  lemma LandsRelocated(ops: seq<Op>, reloc: nat, off: int)
    ensures Lands(Relocate(ops, reloc), off) == Lands(ops, off)
  {
    if ops != [] && off != 0 { LandsRelocated(ops[1..], reloc, off - ops[0].Size()); }
  }

  // ------------------------------------------------- relocation, on the bytes

  /**
   * The relocation walk from `p` up to `end`. `None` is the walk that never returns: it
   * overshoots `end` and aborts, or meets a zero `yes` field, or leaves the buffer.
   */
  function PatchFrom(c: seq<byte>, p: nat, end: nat, reloc: nat): (r: Option<seq<byte>>)
    ensures r.Some? ==> |r.value| == |c|
    decreases |c| - p
  {
    if p >= end then (if p == end then Some(c) else None)
    else if p + 4 > |c| || c[p + 1] == 0 then None
    else
      var no := Get16(c, p + 2);
      var c' := if no == end - p + 4 then Put16(c, p + 2, no + reloc) else c;
      PatchFrom(c', p + c[p + 1], end, reloc)
  }

  /** `ssfilter_patch` on the first `len` bytes of a buffer. */
  method Patch(a: array<byte>, len: nat, reloc: nat) returns (ok: bool)
    modifies a
    ensures var r := PatchFrom(old(a[..]), 0, len, reloc);
            if r.Some? then ok && a[..] == r.value else !ok
  {
    var p := 0;
    while p < len
      invariant p >= 0
      invariant PatchFrom(old(a[..]), 0, len, reloc) == PatchFrom(a[..], p, len, reloc)
      decreases a.Length - p
    {
      if p + 4 > a.Length || a[p + 1] == 0 { return false; }
      assert a[..][p + 1] == a[p + 1];
      var yes: int := a[p + 1];
      var no := a[p + 2] as int + 256 * (a[p + 3] as int);
      if no == len - p + 4 {
        a[p + 2], a[p + 3] := (no + reloc) % 256, (no + reloc) / 256 % 256;
      }
      p := p + yes;
    }
    ok := p == len;
  }

  /** On the bytes of well-formed code the walk never aborts and relocates exactly as `Relocate`. */
  lemma {:induction false} PatchRelocates(c: seq<byte>, p: nat, end: nat, ops: seq<Op>, reloc: nat)
    returns (r: seq<byte>)
    requires CodeAt(c, p, ops) && end == p + Len(ops) <= |c|
    requires WellFormed(ops) && Len(ops) + 4 + reloc < U16_MOD
    ensures PatchFrom(c, p, end, reloc) == Some(r)
    ensures CodeAt(r, p, Relocate(ops, reloc))
    ensures Same(c, r, 0, p) && Same(c, r, end, |c|)
    decreases |ops|
  {
    hide OpAt, Same, PatchFrom, Lands;
    if ops == [] {
      r := c;
      PatchEnd(c, p, reloc);
      SameSelf(c, 0, |c|);
      SamePart(c, c, 0, |c|, 0, p);
      SamePart(c, c, 0, |c|, end, |c|);
    } else {
      var op, rest := ops[0], ops[1..];
      LandsBound(rest, op.no - op.Size());
      var q := p + op.Size();
      var op' := if op.no == Len(ops) + 4 then op.(no := op.no + reloc) else op;
      assert Relocate(ops, reloc) == [op'] + Relocate(rest, reloc);
      var c' := PatchOne(c, p, op, end, reloc);
      SamePart(c, c', q, |c|, q, end);
      SamePart(c, c', q, |c|, end, |c|);
      CodeAtFrame(c, c', q, rest);
      r := PatchRelocates(c', q, end, rest, reloc);
      assert PatchFrom(c, p, end, reloc) == Some(r);
      SamePart(c', r, 0, q, 0, p);
      SamePart(c', r, 0, q, p, q);
      SameTrans(c, c', r, 0, p);
      SameTrans(c, c', r, end, |c|);
      OpAtFrame(c', r, p, op');
      CodeAtCons(r, p, op', Relocate(rest, reloc));
    }
  }

  lemma PatchEnd(c: seq<byte>, p: nat, reloc: nat)
    requires p <= |c|
    ensures PatchFrom(c, p, p, reloc) == Some(c)
  {
  }

  /** One step of the walk: at most the `no` field of this operation changes. */
  lemma {:induction false} PatchOne(c: seq<byte>, p: nat, op: Op, end: nat, reloc: nat) returns (c': seq<byte>)
    requires OpAt(c, p, op) && p < end && op.no + reloc < U16_MOD
    ensures Same(c, c', 0, p) && Same(c, c', p + op.Size(), |c|)
    ensures OpAt(c', p, if op.no == end - p + 4 then op.(no := op.no + reloc) else op)
    ensures PatchFrom(c, p, end, reloc) == PatchFrom(c', p + op.Size(), end, reloc)
  {
    c' := if op.no == end - p + 4 then Put16(c, p + 2, op.no + reloc) else c;
    Put16Cut(c, p + 2, op.no + reloc);
  }

  lemma CodeAtCons(c: seq<byte>, p: nat, op: Op, rest: seq<Op>)
    requires OpAt(c, p, op) && CodeAt(c, p + op.Size(), rest)
    ensures CodeAt(c, p, [op] + rest)
  {
    assert ([op] + rest)[1..] == rest;
  }

  lemma OpAtFrame(c: seq<byte>, c': seq<byte>, p: nat, op: Op)
    requires OpAt(c, p, op) && Same(c, c', p, p + op.Size())
    ensures OpAt(c', p, op)
  {}

  lemma {:induction false} CodeAtFrame(c: seq<byte>, c': seq<byte>, p: nat, ops: seq<Op>)
    requires CodeAt(c, p, ops) && p + Len(ops) <= |c| && Same(c, c', p, p + Len(ops))
    ensures CodeAt(c', p, ops)
    decreases |ops|
  {
    if ops != [] {
      OpAtFrame(c, c', p, ops[0]);
      CodeAtFrame(c, c', p + ops[0].Size(), ops[1..]);
    }
  }
}
