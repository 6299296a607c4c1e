/** The realm counters of rtacct.c: 64-bit values that follow 32-bit counters, and incremental dumps of them. */
module RtAcct {
  import opened Wire

  const U64 := 0x1_0000_0000_0000_0000
  const REALMS := 256
  const SIZE := 1024

  type u64 = x: int | 0 <= x < U64

  // ------------------------------------------------------------ following one counter

  /** The increment between two samples, in 32-bit arithmetic. */
  function Incr(now: u32, before: u32): u32 { (now - before) % U32_MOD }

  /** 64-bit addition. */
  function Plus(val: u64, incr: u32): u64 { (val + incr) % U64 }

  /** A value that starts at the first sample and adds every increment, in 64-bit arithmetic. */
  function Tracked(samples: seq<u32>): u64
    requires samples != []
  {
    var n := |samples| - 1;
    if n == 0 then samples[0] else Plus(Tracked(samples[..n]), Incr(samples[n], samples[n - 1]))
  }

  /** What the kernel shows of true counters. */
  function Sampled(counters: seq<nat>): (r: seq<u32>)
    ensures |r| == |counters|
  {
    seq(|counters|, i requires 0 <= i < |counters| => counters[i] % U32_MOD)
  }

  ghost predicate Growing(counters: seq<nat>) { forall i :: 0 < i < |counters| ==> counters[i - 1] <= counters[i] }

  /** No counter wraps more than once between two samples. */
  ghost predicate Slow(counters: seq<nat>) {
    forall i :: 0 < i < |counters| ==> counters[i] - counters[i - 1] < U32_MOD
  }

  /** The growth the increments miss, in units of 2^32. */
  function Missed(counters: seq<nat>): nat
    requires Growing(counters)
  {
    var n := |counters| - 1;
    if n <= 0 then 0 else Missed(counters[..n]) + (counters[n] - counters[n - 1]) / U32_MOD
  }

  lemma IncrGrowth(c: nat, d: nat)
    requires c <= d
    ensures Incr(d % U32_MOD, c % U32_MOD) == (d - c) % U32_MOD
  {
    var q, r := c / U32_MOD, d / U32_MOD;
    assert d % U32_MOD - c % U32_MOD == (d - c) + (q - r) * U32_MOD;
    ModShift(d - c, q - r);
  }

  lemma ModShift(a: int, k: int)
    ensures (a + k * U32_MOD) % U32_MOD == a % U32_MOD
  {
  }

  lemma ModAdd(a: int, b: int)
    ensures (a % U64 + b) % U64 == (a + b) % U64
  {
  }

  lemma TrackedStep(x: int, g: nat)
    ensures Plus(x % U64, g % U32_MOD) == (x + g - g / U32_MOD * U32_MOD) % U64
  {
    ModAdd(x, g % U32_MOD);
  }

  /** The growth from the first counter to the last. */
  function Growth(counters: seq<nat>): (g: int)
    requires counters != []
  {
    counters[|counters| - 1] as int - counters[0] as int
  }

  function Off(counters: seq<nat>): int
    requires counters != [] && Growing(counters)
  {
    Sampled(counters)[0] + Growth(counters) - Missed(counters) * U32_MOD
  }

  /** After any samples the value is off by exactly the missed wraps. */
  lemma {:induction false} TrackedIs(counters: seq<nat>)
    requires counters != [] && Growing(counters)
    ensures Missed(counters) * U32_MOD <= Growth(counters)
    ensures Tracked(Sampled(counters)) == Off(counters) % U64
  {
    hide Incr, Plus, Off, Missed, Growth;
    var n := |counters| - 1;
    OffStep(counters);
    if n > 0 {
      TrackedIs(counters[..n]);
      assert Sampled(counters)[..n] == Sampled(counters[..n]);
      IncrGrowth(counters[n - 1], counters[n]);
      TrackedStep(Off(counters[..n]), counters[n] - counters[n - 1]);
    }
  }

  lemma OffStep(counters: seq<nat>)
    requires counters != [] && Growing(counters)
    ensures var n := |counters| - 1;
            if n == 0 then Off(counters) == Sampled(counters)[0] && Missed(counters) * U32_MOD == 0 == Growth(counters)
            else
              var g := counters[n] - counters[n - 1];
              Off(counters) == Off(counters[..n]) + g - g / U32_MOD * U32_MOD &&
              (Missed(counters[..n]) * U32_MOD <= Growth(counters[..n]) ==>
                 Missed(counters) * U32_MOD <= Growth(counters))
  {
  }

  lemma {:induction false} MissedNothing(counters: seq<nat>)
    requires Growing(counters)
    ensures Missed(counters) == 0 <==> Slow(counters)
  {
    var n := |counters| - 1;
    if n > 0 {
      MissedNothing(counters[..n]);
      var g := counters[n] - counters[n - 1];
      assert g / U32_MOD == 0 <==> g < U32_MOD;
      assert Slow(counters) <==> Slow(counters[..n]) && g < U32_MOD;
    }
  }

  /**
   * Over every run of samples the value has grown by exactly the true growth if and only if no step
   * grew by 2^32 or more and the total stays below 2^64.
   */
  lemma TracksGrowth(counters: seq<nat>)
    requires counters != [] && Growing(counters)
    ensures Tracked(Sampled(counters)) == Sampled(counters)[0] + Growth(counters) <==>
            Slow(counters) && Sampled(counters)[0] + Growth(counters) < U64
  {
    hide Tracked;
    TrackedIs(counters);
    MissedNothing(counters);
  }

  /** A counter that grows by 2^32 between two samples looks as if it stood still. */
  lemma WrapMissed()
    ensures var c := [0, U32_MOD]; Growing(c) && !Slow(c) && Tracked(Sampled(c)) == 0 && Growth(c) == U32_MOD
  {
    var c: seq<nat> := [0, U32_MOD];
    assert c[1] - c[0] == U32_MOD && Growing(c);
    assert Sampled(c) == [0, 0] && [0, 0][..1] == [0];
  }

  // ------------------------------------------------------------ the table

  /** The samples of counter `i`. */
  function Column(tables: seq<seq<u32>>, i: nat): (r: seq<u32>)
    requires forall t :: 0 <= t < |tables| ==> i < |tables[t]|
    ensures |r| == |tables|
  {
    seq(|tables|, t requires 0 <= t < |tables| => tables[t][i])
  }

  lemma TrackedSnoc(samples: seq<u32>, s: u32)
    requires samples != []
    ensures Tracked(samples + [s]) == Plus(Tracked(samples), Incr(s, samples[|samples| - 1]))
  {
    hide Plus, Incr;
    assert (samples + [s])[..|samples|] == samples;
  }

  lemma ColumnSnoc(tables: seq<seq<u32>>, table: seq<u32>, i: nat)
    requires forall t :: 0 <= t < |tables| ==> i < |tables[t]|
    requires i < |table|
    ensures Column(tables + [table], i) == Column(tables, i) + [table[i]]
  {
  }

  /** `struct rtacct_data` and the kernel tables it has been fed. */
  class Accounts {
    const ival: array<u32>
    const val: array<u64>
    const rate: array<real>
    ghost var tables: seq<seq<u32>>

    /** Every value is the tracked one of its counter. */
    ghost predicate Valid()
      reads this, ival, val, rate
    {
      ival.Length == val.Length == rate.Length == SIZE && tables != [] &&
      (forall t :: 0 <= t < |tables| ==> |tables[t]| == SIZE) &&
      (forall i :: 0 <= i < SIZE ==> Follows(i))
    }

    ghost predicate Follows(i: nat)
      reads this, ival, val
      requires i < SIZE == ival.Length == val.Length && tables != []
      requires forall t :: 0 <= t < |tables| ==> |tables[t]| == SIZE
    {
      ival[i] == tables[|tables| - 1][i] && val[i] == Tracked(Column(tables, i))
    }

    /** `pad_kern_table`. */
    constructor (table: seq<u32>)
      requires |table| == SIZE
      ensures Valid() && tables == [table] && fresh(ival) && fresh(val) && fresh(rate)
    {
      ival := new u32[SIZE](i requires 0 <= i < SIZE => table[i]);
      val := new u64[SIZE](i requires 0 <= i < SIZE => table[i]);
      rate := new real[SIZE](_ => 0.0);
      tables := [table];
    }

    /** `update_db`; `smooth` stands for the rate filter. */
    method UpdateDb(table: seq<u32>, smooth: (real, u32) -> real)
      requires Valid() && |table| == SIZE
      modifies this, ival, val, rate
      ensures Valid() && tables == old(tables) + [table]
      ensures forall i :: 0 <= i < SIZE ==>
                rate[i] == if table[i] == 0 && old(ival[i]) == 0 && old(val[i]) == 0 && old(rate[i]) == 0.0 then 0.0
                           else smooth(old(rate[i]), Incr(table[i], old(ival[i])))
    {
      var i := 0;
      while i < SIZE
        invariant 0 <= i <= SIZE && tables == old(tables)
        invariant forall j :: 0 <= j < i ==> ival[j] == table[j]
        invariant forall j :: 0 <= j < i ==> val[j] == Plus(old(val[j]), Incr(table[j], old(ival[j])))
        invariant forall j :: i <= j < SIZE ==>
                    ival[j] == old(ival[j]) && val[j] == old(val[j]) && rate[j] == old(rate[j])
        invariant forall j :: 0 <= j < i ==>
                    rate[j] == if table[j] == 0 && old(ival[j]) == 0 && old(val[j]) == 0 && old(rate[j]) == 0.0 then 0.0
                               else smooth(old(rate[j]), Incr(table[j], old(ival[j])))
      {
        var incr := Incr(table[i], ival[i]);
        if !(table[i] == 0 && incr == 0 && val[i] == 0 && rate[i] == 0.0) {
          val[i] := Plus(val[i], incr);
          ival[i] := table[i];
          rate[i] := smooth(rate[i], incr);
        }
        i := i + 1;
      }
      ghost var before := tables;
      tables := tables + [table];
      forall j | 0 <= j < SIZE ensures Follows(j) {
        assert old(Follows(j));
        ColumnSnoc(before, table, j);
        TrackedSnoc(Column(before, j), table[j]);
      }
    }
  }

  // ------------------------------------------------------------ incremental dumps

  /** The four counters of a realm. */
  type Four = s: seq<u64> | |s| == 4 witness [0, 0, 0, 0]

  predicate Decreased(val: Four, hist: Four) { exists k :: 0 <= k < 4 && val[k] < hist[k] }

  /** What a dump shows of a realm: increments, or absolute values if any counter went back. */
  function Report(val: Four, hist: Four): (r: Four) {
    if Decreased(val, hist) then val
    else
      assert forall k :: 0 <= k < 4 ==> hist[k] <= val[k];
      seq(4, k requires 0 <= k < 4 => val[k] - hist[k])
  }

  /** A report is the change since the last dump exactly when no counter of the realm went back. */
  lemma ReportExact(val: Four, hist: Four)
    ensures (forall k :: 0 <= k < 4 ==> Report(val, hist)[k] == val[k] as int - hist[k] as int) <==>
            !Decreased(val, hist)
  {
    if Decreased(val, hist) {
      var k :| 0 <= k < 4 && val[k] < hist[k];
      assert Report(val, hist)[k] != val[k] as int - hist[k] as int;
    }
  }

  /** One counter of a realm going back makes the dump show the old total of the others once more. */
  lemma BackOnce()
    ensures Report([9, 5, 7, 7], [10, 4, 7, 7]) == [9, 5, 7, 7]
  {
    assert [9, 5, 7, 7][0] < [10, 4, 7, 7][0];
  }

  /** The counters of one realm in a table. */
  function Slice(t: seq<u64>, realm: nat): Four
    requires |t| == SIZE && realm < REALMS
  {
    t[4 * realm..4 * realm + 4]
  }

  datatype Row = Row(realm: nat, counts: Four)

  /** A realm's amount in printed rows; a realm without a row counts as zero. */
  function Amount(rows: seq<Row>, realm: nat, k: nat): nat
    requires k < 4
  {
    if rows == [] then 0
    else
      var n := |rows| - 1;
      Amount(rows[..n], realm, k) + if rows[n].realm == realm then rows[n].counts[k] else 0
  }

  lemma AmountSnoc(rows: seq<Row>, row: Row, realm: nat, k: nat)
    requires k < 4
    ensures Amount(rows + [row], realm, k) == Amount(rows, realm, k) + if row.realm == realm then row.counts[k] else 0
  {
    assert (rows + [row])[..|rows|] == rows;
  }

  /** The inner loops of `dump_incr_db`: the four counters of one realm against the last dump. */
  method RealmReport(val: Four, hist: Four) returns (r: Four)
    ensures r == Report(val, hist)
  {
    var rval := new u64[4];
    var k, ovfl := 0, false;
    while k < 4
      invariant 0 <= k <= 4
      invariant ovfl <==> exists j :: 0 <= j < k && val[j] < hist[j]
      invariant forall j :: 0 <= j < k ==> rval[j] == if val[j] < hist[j] then val[j] else val[j] - hist[j]
    {
      rval[k] := val[k];
      if rval[k] < hist[k] { ovfl := true; } else { rval[k] := rval[k] - hist[k]; }
      k := k + 1;
    }
    if ovfl {
      k := 0;
      while k < 4
        invariant 0 <= k <= 4
        invariant forall j :: 0 <= j < k ==> rval[j] == val[j]
      {
        rval[k] := val[k];
        k := k + 1;
      }
    }
    r := rval[..];
  }

  /** The table `hist` after the first `n` realms were dumped. */
  ghost predicate Stored(hist: seq<u64>, before: seq<u64>, val: seq<u64>, shown: seq<bool>, n: nat)
    requires |hist| == |before| == |val| == SIZE && n <= REALMS == |shown|
  {
    forall r :: 0 <= r < REALMS ==> Slice(hist, r) == if r < n && shown[r] then Slice(val, r) else Slice(before, r)
  }

  /** The rows of the first `n` realms show the report of every selected realm. */
  ghost predicate Shows(rows: seq<Row>, before: seq<u64>, val: seq<u64>, shown: seq<bool>, n: nat)
    requires |before| == |val| == SIZE && n <= REALMS == |shown|
  {
    forall r, k :: 0 <= r < REALMS && 0 <= k < 4 ==>
      Amount(rows, r, k) == if r < n && shown[r] then Report(Slice(val, r), Slice(before, r))[k] else 0
  }

  /** A realm has something to show: a count or a rate that is not zero. */
  predicate Busy(r: Four, rate: seq<real>, realm: nat)
    requires |rate| == SIZE && realm < REALMS
  {
    exists k :: 0 <= k < 4 && !(r[k] == 0 && rate[4 * realm + k] == 0.0)
  }

  /** The realms of the first `n` that have a row, in order. */
  ghost predicate Listed(
    rows: seq<Row>, before: seq<u64>, val: seq<u64>, rate: seq<real>, shown: seq<bool>, zeros: bool, n: nat)
    requires |before| == |val| == |rate| == SIZE && n <= REALMS == |shown|
  {
    (forall i, j :: 0 <= i < j < |rows| ==> rows[i].realm < rows[j].realm) &&
    (forall i :: 0 <= i < |rows| ==> rows[i].realm < n) &&
    forall r :: 0 <= r < n ==>
      var report := Report(Slice(val, r), Slice(before, r));
      Row(r, report) in rows <==> shown[r] && (zeros || Busy(report, rate, r))
  }

  lemma ListedNext(
    rows: seq<Row>, more: seq<Row>, before: seq<u64>, val: seq<u64>, rate: seq<real>, shown: seq<bool>, zeros: bool,
    n: nat)
    requires |before| == |val| == |rate| == SIZE && n < REALMS == |shown|
    requires Listed(rows, before, val, rate, shown, zeros, n)
    requires var r := Report(Slice(val, n), Slice(before, n));
             more == if shown[n] && (zeros || Busy(r, rate, n)) then rows + [Row(n, r)] else rows
    ensures Listed(more, before, val, rate, shown, zeros, n + 1)
  {
    hide Report, Slice, Busy;
    var row := Row(n, Report(Slice(val, n), Slice(before, n)));
    assert row !in rows;
    if more != rows { assert more[|rows|] == row; }
  }

  lemma ShowsNext(rows: seq<Row>, more: seq<Row>, before: seq<u64>, val: seq<u64>, shown: seq<bool>, n: nat)
    requires |before| == |val| == SIZE && n < REALMS == |shown| && Shows(rows, before, val, shown, n)
    requires var r := Report(Slice(val, n), Slice(before, n));
             if shown[n] && r != [0, 0, 0, 0] then more == rows + [Row(n, r)]
             else more == rows || (shown[n] && more == rows + [Row(n, r)])
    ensures Shows(more, before, val, shown, n + 1)
  {
    hide Report, Slice;
    forall r, k | 0 <= r < REALMS && 0 <= k < 4
      ensures Amount(more, r, k) == if r < n + 1 && shown[r] then Report(Slice(val, r), Slice(before, r))[k] else 0
    {
      assert Amount(rows, r, k) == if r < n && shown[r] then Report(Slice(val, r), Slice(before, r))[k] else 0;
      if more != rows { AmountSnoc(rows, Row(n, Report(Slice(val, n), Slice(before, n))), r, k); }
    }
  }

  lemma StoredNext(hist: seq<u64>, more: seq<u64>, before: seq<u64>, val: seq<u64>, shown: seq<bool>, n: nat)
    requires |hist| == |more| == |before| == |val| == SIZE && n < REALMS == |shown|
    requires Stored(hist, before, val, shown, n)
    requires more == if shown[n] then hist[..4 * n] + val[4 * n..4 * n + 4] + hist[4 * n + 4..] else hist
    ensures Stored(more, before, val, shown, n + 1)
  {
    forall r | 0 <= r < REALMS
      ensures Slice(more, r) == if r < n + 1 && shown[r] then Slice(val, r) else Slice(before, r)
    {
      assert Slice(hist, r) == if r < n && shown[r] then Slice(val, r) else Slice(before, r);
      if shown[n] { SliceOfCopy(hist, more, val, n, r); }
    }
  }

  lemma SliceOfCopy(hist: seq<u64>, more: seq<u64>, val: seq<u64>, n: nat, r: nat)
    requires |hist| == |more| == |val| == SIZE && n < REALMS && r < REALMS
    requires more == hist[..4 * n] + val[4 * n..4 * n + 4] + hist[4 * n + 4..]
    ensures Slice(more, r) == if r == n then Slice(val, r) else Slice(hist, r)
  {
    var p, q := 4 * n, 4 * r;
    assert r < n ==> q + 4 <= p;
    assert r > n ==> p + 4 <= q;
    assert forall i :: 0 <= i < SIZE ==> more[i] == if p <= i < p + 4 then val[i] else hist[i];
    var from := if r == n then val else hist;
    assert more[q] == from[q] && more[q + 1] == from[q + 1] && more[q + 2] == from[q + 2] && more[q + 3] == from[q + 3];
    assert more[q..q + 4] == [more[q], more[q + 1], more[q + 2], more[q + 3]];
    assert from[q..q + 4] == [from[q], from[q + 1], from[q + 2], from[q + 3]];
  }

  /**
   * `dump_incr_db`: every selected realm is reported against the table of the last dump, which then
   * becomes the current one. Rows without a count or rate are left out unless `zeros` asks for them.
   */
  method DumpIncr(val: array<u64>, rate: array<real>, hist: array<u64>, shown: seq<bool>, zeros: bool, quiet: bool)
    returns (rows: seq<Row>)
    requires val.Length == hist.Length == rate.Length == SIZE && val != hist && |shown| == REALMS
    modifies hist
    ensures Stored(hist[..], old(hist[..]), val[..], shown, REALMS)
    ensures if quiet then rows == [] else
              Shows(rows, old(hist[..]), val[..], shown, REALMS) &&
              Listed(rows, old(hist[..]), val[..], rate[..], shown, zeros, REALMS)
  {
    hide Report, Shows, Stored, Listed, Busy;
    ghost var before := hist[..];
    rows := [];
    var n := 0;
    ShowsNone(before, val[..], shown);
    ListedNone(before, val[..], rate[..], shown, zeros);
    while n < REALMS
      invariant 0 <= n <= REALMS
      invariant Stored(hist[..], before, val[..], shown, n)
      invariant if quiet then rows == [] else
                  Shows(rows, before, val[..], shown, n) && Listed(rows, before, val[..], rate[..], shown, zeros, n)
    {
      ghost var was, printed := hist[..], rows;
      if shown[n] {
        var r := RealmReport(val[4 * n..4 * n + 4], hist[4 * n..4 * n + 4]);
        SliceKept(was, before, val[..], shown, n);
        CopyRealm(val, hist, n);
        if !quiet {
          var idle := r[0] == 0 && rate[4 * n] == 0.0 && r[1] == 0 && rate[4 * n + 1] == 0.0 &&
                      r[2] == 0 && rate[4 * n + 2] == 0.0 && r[3] == 0 && rate[4 * n + 3] == 0.0;
          IdleExact(r, rate[..], n);
          if zeros || !idle { rows := rows + [Row(n, r)]; }
        }
      }
      StoredNext(was, hist[..], before, val[..], shown, n);
      if !quiet {
        ShowsNext(printed, rows, before, val[..], shown, n);
        ListedNext(printed, rows, before, val[..], rate[..], shown, zeros, n);
      }
      n := n + 1;
    }
  }

  lemma IdleExact(r: Four, rate: seq<real>, n: nat)
    requires |rate| == SIZE && n < REALMS
    ensures Busy(r, rate, n) <==>
            !(r[0] == 0 && rate[4 * n] == 0.0 && r[1] == 0 && rate[4 * n + 1] == 0.0 &&
              r[2] == 0 && rate[4 * n + 2] == 0.0 && r[3] == 0 && rate[4 * n + 3] == 0.0)
  {
    assert rate[4 * n + 0] == rate[4 * n];
    if !(r[0] == 0 && rate[4 * n + 0] == 0.0) { assert Busy(r, rate, n); }
    if !(r[1] == 0 && rate[4 * n + 1] == 0.0) { assert Busy(r, rate, n); }
    if !(r[2] == 0 && rate[4 * n + 2] == 0.0) { assert Busy(r, rate, n); }
    if !(r[3] == 0 && rate[4 * n + 3] == 0.0) { assert Busy(r, rate, n); }
  }

  lemma ListedNone(before: seq<u64>, val: seq<u64>, rate: seq<real>, shown: seq<bool>, zeros: bool)
    requires |before| == |val| == |rate| == SIZE && |shown| == REALMS
    ensures Listed([], before, val, rate, shown, zeros, 0)
  {
  }

  lemma ShowsNone(before: seq<u64>, val: seq<u64>, shown: seq<bool>)
    requires |before| == |val| == SIZE && |shown| == REALMS
    ensures Shows([], before, val, shown, 0) && Stored(before, before, val, shown, 0)
  {
  }

  /** A realm not dumped yet still has its old counters. */
  lemma SliceKept(hist: seq<u64>, before: seq<u64>, val: seq<u64>, shown: seq<bool>, n: nat)
    requires |hist| == |before| == |val| == SIZE && n < REALMS == |shown| && Stored(hist, before, val, shown, n)
    ensures Slice(hist, n) == Slice(before, n)
  {
  }

  method CopyRealm(val: array<u64>, hist: array<u64>, n: nat)
    requires val.Length == hist.Length == SIZE && val != hist && n < REALMS
    modifies hist
    ensures hist[..] == old(hist[..4 * n]) + val[4 * n..4 * n + 4] + old(hist[4 * n + 4..])
  {
    var k := 0;
    while k < 4
      invariant 0 <= k <= 4
      invariant forall i :: 0 <= i < SIZE ==> hist[i] == if 4 * n <= i < 4 * n + k then val[i] else old(hist[i])
    {
      hist[4 * n + k] := val[4 * n + k];
      k := k + 1;
    }
  }

  /** A run of dumps: `hists` are the tables before, between and after them. */
  ghost predicate Dumps(hists: seq<seq<u64>>, vals: seq<seq<u64>>, rows: seq<seq<Row>>, shown: seq<bool>) {
    |hists| == |vals| + 1 == |rows| + 1 && |shown| == REALMS &&
    (forall t :: 0 <= t < |hists| ==> |hists[t]| == SIZE) && (forall t :: 0 <= t < |vals| ==> |vals[t]| == SIZE) &&
    (forall t :: 0 <= t < |vals| ==>
      Stored(hists[t + 1], hists[t], vals[t], shown, REALMS) && Shows(rows[t], hists[t], vals[t], shown, REALMS))
  }

  /** What a run of dumps printed for one counter. */
  function Printed(rows: seq<seq<Row>>, realm: nat, k: nat): nat
    requires k < 4
  {
    if rows == [] then 0 else Printed(rows[..|rows| - 1], realm, k) + Amount(rows[|rows| - 1], realm, k)
  }

  /** What is shown of counter `k` too much: its old total, in the dumps where a counter of the realm went back. */
  function Repeated(hists: seq<seq<u64>>, vals: seq<seq<u64>>, realm: nat, k: nat): nat
    requires |hists| >= |vals| && realm < REALMS && k < 4
    requires forall t :: 0 <= t < |hists| ==> |hists[t]| == SIZE
    requires forall t :: 0 <= t < |vals| ==> |vals[t]| == SIZE
    decreases |vals|
  {
    if vals == [] then 0
    else
      var n := |vals| - 1;
      Repeated(hists, vals[..n], realm, k) +
      if Decreased(Slice(vals[n], realm), Slice(hists[n], realm)) then Slice(hists[n], realm)[k] else 0
  }

  lemma {:induction false} RepeatedTake(hists: seq<seq<u64>>, vals: seq<seq<u64>>, realm: nat, k: nat, m: nat)
    requires |hists| >= m >= |vals| && realm < REALMS && k < 4
    requires forall t :: 0 <= t < |hists| ==> |hists[t]| == SIZE
    requires forall t :: 0 <= t < |vals| ==> |vals[t]| == SIZE
    ensures Repeated(hists[..m], vals, realm, k) == Repeated(hists, vals, realm, k)
    decreases |vals|
  {
    hide Slice, Decreased;
    if vals != [] { RepeatedTake(hists, vals[..|vals| - 1], realm, k, m); }
  }

  lemma DumpStep(hist: seq<u64>, next: seq<u64>, val: seq<u64>, rows: seq<Row>, shown: seq<bool>, realm: nat, k: nat)
    requires |hist| == |next| == |val| == SIZE && |shown| == REALMS && realm < REALMS && k < 4 && shown[realm]
    requires Stored(next, hist, val, shown, REALMS) && Shows(rows, hist, val, shown, REALMS)
    ensures Slice(next, realm) == Slice(val, realm)
    ensures Amount(rows, realm, k) ==
            Slice(next, realm)[k] as int - Slice(hist, realm)[k] as int +
            (if Decreased(Slice(val, realm), Slice(hist, realm)) then Slice(hist, realm)[k] as int else 0)
  {
    ReportExact(Slice(val, realm), Slice(hist, realm));
  }

  /**
   * Over every run of dumps, the printed increments sum to the total change plus the totals repeated
   * where a counter of the realm went back; so they are the change if none ever did.
   */
  lemma {:induction false} DumpsSum(
    hists: seq<seq<u64>>, vals: seq<seq<u64>>, rows: seq<seq<Row>>, shown: seq<bool>, realm: nat, k: nat)
    requires Dumps(hists, vals, rows, shown) && realm < REALMS && k < 4 && shown[realm] && vals != []
    ensures Printed(rows, realm, k) ==
            Slice(vals[|vals| - 1], realm)[k] as int - Slice(hists[0], realm)[k] as int +
            Repeated(hists, vals, realm, k)
    ensures (forall t :: 0 <= t < |vals| ==> !Decreased(Slice(vals[t], realm), Slice(hists[t], realm))) ==>
              Repeated(hists, vals, realm, k) == 0
  {
    hide Slice, Amount, Shows, Stored, Decreased;
    var n := |vals| - 1;
    DumpStep(hists[n], hists[n + 1], vals[n], rows[n], shown, realm, k);
    if n > 0 {
      DumpsSum(hists[..n + 1], vals[..n], rows[..n], shown, realm, k);
      RepeatedTake(hists, vals[..n], realm, k, n + 1);
      DumpStep(hists[n - 1], hists[n], vals[n - 1], rows[n - 1], shown, realm, k);
    } else {
      assert rows[..0] == [] && vals[..0] == [];
    }
  }

  // ------------------------------------------------------------ dumps of followed counters

  /** A counter that is followed exactly to its last sample. */
  ghost predicate Steady(counters: seq<nat>) {
    counters != [] && Growing(counters) && Slow(counters) && Sampled(counters)[0] + Growth(counters) < U64
  }

  lemma {:induction false} GrowsTo(counters: seq<nat>, i: nat, j: nat)
    requires Growing(counters) && i <= j < |counters|
    ensures counters[i] <= counters[j]
  {
    if i < j { GrowsTo(counters, i, j - 1); }
  }

  /** At every sample of a steady counter the value is where the counter is. */
  lemma SteadyAt(counters: seq<nat>, j: nat)
    requires Steady(counters) && j < |counters|
    ensures Tracked(Sampled(counters[..j + 1])) == Sampled(counters)[0] + counters[j] - counters[0]
  {
    hide Tracked;
    GrowsTo(counters, j, |counters| - 1);
    TracksGrowth(counters[..j + 1]);
  }

  /** A table holds for a realm the values that follow its four counters to sample `at`. */
  ghost predicate Holds(table: seq<u64>, realm: nat, counters: seq<seq<nat>>, at: nat)
    requires |table| == SIZE && realm < REALMS && |counters| == 4
  {
    forall k :: 0 <= k < 4 ==> at < |counters[k]| && Slice(table, realm)[k] == Tracked(Sampled(counters[k][..at + 1]))
  }

  lemma HoldsGrows(
    val: seq<u64>, hist: seq<u64>, realm: nat, counters: seq<seq<nat>>, i: nat, j: nat)
    requires |val| == |hist| == SIZE && realm < REALMS && |counters| == 4 && i <= j
    requires forall k :: 0 <= k < 4 ==> Steady(counters[k])
    requires Holds(hist, realm, counters, i) && Holds(val, realm, counters, j)
    ensures !Decreased(Slice(val, realm), Slice(hist, realm))
    ensures forall k :: 0 <= k < 4 ==>
              Slice(val, realm)[k] as int - Slice(hist, realm)[k] as int == counters[k][j] as int - counters[k][i]
  {
    hide Tracked, Slice, Slow, Growing, Sampled;
    forall k | 0 <= k < 4
      ensures counters[k][i] <= counters[k][j]
      ensures Slice(val, realm)[k] as int - Slice(hist, realm)[k] as int == counters[k][j] as int - counters[k][i]
    {
      SteadyAt(counters[k], i);
      SteadyAt(counters[k], j);
      GrowsTo(counters[k], i, j);
    }
  }

  /**
   * From the kernel's counters to the printed rows: if the four counters of a shown realm are
   * followed exactly, then over every run of dumps the printed increments of each sum to its true
   * growth. The tables hold the values at samples `at[0]` before the run and `at[t + 1]` at dump `t`.
   */
  lemma {:induction false} PrintsGrowth(
    hists: seq<seq<u64>>, vals: seq<seq<u64>>, rows: seq<seq<Row>>, shown: seq<bool>, realm: nat,
    counters: seq<seq<nat>>, at: seq<nat>, k: nat)
    requires Dumps(hists, vals, rows, shown) && realm < REALMS && k < 4 && shown[realm] && vals != []
    requires |counters| == 4 && forall j :: 0 <= j < 4 ==> Steady(counters[j])
    requires |at| == |vals| + 1 && forall t :: 0 <= t < |vals| ==> at[t] <= at[t + 1]
    requires Holds(hists[0], realm, counters, at[0])
    requires forall t :: 0 <= t < |vals| ==> Holds(vals[t], realm, counters, at[t + 1])
    ensures at[0] < |counters[k]| && at[|vals|] < |counters[k]|
    ensures Printed(rows, realm, k) == counters[k][at[|vals|]] as int - counters[k][at[0]]
  {
    hide Slice, Shows, Stored, Decreased, Tracked, Steady, Sampled, Amount;
    forall t | 0 <= t < |vals| ensures !Decreased(Slice(vals[t], realm), Slice(hists[t], realm)) {
      HeldBefore(hists, vals, rows, shown, realm, counters, at, t);
      HoldsGrows(vals[t], hists[t], realm, counters, at[t], at[t + 1]);
    }
    DumpsSum(hists, vals, rows, shown, realm, k);
    AtGrows(at, |vals|);
    HoldsGrows(vals[|vals| - 1], hists[0], realm, counters, at[0], at[|vals|]);
  }

  lemma {:induction false} AtGrows(at: seq<nat>, n: nat)
    requires n < |at| && forall t :: 0 <= t < |at| - 1 ==> at[t] <= at[t + 1]
    ensures at[0] <= at[n]
  {
    if n > 0 { AtGrows(at, n - 1); }
  }

  /** Before each dump the history holds what the last dump saw. */
  lemma HeldBefore(
    hists: seq<seq<u64>>, vals: seq<seq<u64>>, rows: seq<seq<Row>>, shown: seq<bool>, realm: nat,
    counters: seq<seq<nat>>, at: seq<nat>, t: nat)
    requires Dumps(hists, vals, rows, shown) && realm < REALMS && shown[realm] && t < |vals| && |at| == |vals| + 1
    requires |counters| == 4 && Holds(hists[0], realm, counters, at[0])
    requires forall u :: 0 <= u < |vals| ==> Holds(vals[u], realm, counters, at[u + 1])
    ensures Holds(hists[t], realm, counters, at[t])
  {
    hide Slice, Shows, Stored, Decreased, Tracked, Sampled, Amount;
    if t > 0 { DumpStep(hists[t - 1], hists[t], vals[t - 1], rows[t - 1], shown, realm, 0); }
  }
}
