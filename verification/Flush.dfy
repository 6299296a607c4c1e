/** `ip route flush`: delete requests are packed into a buffer while the route dump is read. */
module Flush {
  import opened Wire
  import opened Sequence

  const RTM_DELROUTE := 25
  const NLM_F_REQUEST := 1

  /** A netlink message whose length field is right. */
  predicate IsMessage(n: seq<byte>) { |n| >= 16 && Get32(n, 0) == |n| }

  /** Every message has a header and is no longer than the flush buffer. */
  predicate Fit(dump: seq<seq<byte>>, capacity: nat) {
    forall i :: 0 <= i < |dump| ==> 16 <= |dump[i]| <= capacity
  }

  predicate AllMessages(dump: seq<seq<byte>>) {
    forall i :: 0 <= i < |dump| ==> IsMessage(dump[i])
  }

  /** The copy of a dump message turned into a delete request. */
  function Rewrite(n: seq<byte>, seqno: nat): (d: seq<byte>)
    requires |n| >= 16
    ensures |d| == |n|
  {
    n[..4] + Le16(RTM_DELROUTE) + Le16(NLM_F_REQUEST) + Le32(seqno) + n[12..]
  }

  /** `filter.flushb`, `filter.flushp`, `filter.flushed`, `rth.seq` and the batches sent so far. */
  datatype State = State(buf: seq<byte>, flushp: nat, flushed: nat, seqno: nat, sent: seq<seq<byte>>)

  /** `flush_update`; `ok(k)` says whether the k-th send succeeds. */
  function Update(s: State, ok: nat -> bool): (r: Option<State>)
    requires s.flushp <= |s.buf|
    ensures r.Some? ==> |r.value.buf| == |s.buf| && r.value.flushp == 0
  {
    if ok(|s.sent|) then Some(s.(flushp := 0, sent := s.sent + [s.buf[..s.flushp]])) else None
  }

  /** The flush branch of `print_route` for a selected message. */
  function Queue(s: State, n: seq<byte>, ok: nat -> bool): (r: Option<State>)
    requires s.flushp <= |s.buf| && 16 <= |n| <= |s.buf|
    ensures r.Some? ==> |r.value.buf| == |s.buf| && r.value.flushp <= |s.buf|
  {
    var s1 := if Align4(s.flushp) + |n| > |s.buf| then Update(s, ok) else Some(s);
    if s1.None? then None
    else
      var p := Align4(s1.value.flushp);
      var seqno := Seqno(s1.value.seqno, 1);
      Some(State(Splice(s1.value.buf, p, Rewrite(n, seqno)), p + |n|, s1.value.flushed + 1, seqno, s1.value.sent))
  }

  /** A whole dump: every message the filter selects is queued. */
  function QueueAll(s: State, dump: seq<seq<byte>>, select: seq<byte> -> bool, ok: nat -> bool): (r: Option<State>)
    requires s.flushp <= |s.buf| && Fit(dump, |s.buf|)
    ensures r.Some? ==> |r.value.buf| == |s.buf| && r.value.flushp <= |s.buf|
    decreases |dump|
  {
    if dump == [] then Some(s)
    else
      var s1 := if select(dump[0]) then Queue(s, dump[0], ok) else Some(s);
      if s1.None? then None else QueueAll(s1.value, dump[1..], select, ok)
  }

  // ------------------------------------------------------------ what is sent

  /** The receiver's view of a batch: messages by their length fields (`NLMSG_OK`, `NLMSG_NEXT`). */
  function Split(b: seq<byte>, p: nat): (msgs: seq<seq<byte>>)
    ensures forall i :: 0 <= i < |msgs| ==> |msgs[i]| >= 16
    decreases |b| - p
  {
    if p + 16 > |b| || Get32(b, p) < 16 || p + Get32(b, p) > |b| then []
    else [b[p..p + Get32(b, p)]] + Split(b, p + Align4(Get32(b, p)))
  }

  function SplitAll(batches: seq<seq<byte>>): (msgs: seq<seq<byte>>)
    ensures forall i :: 0 <= i < |msgs| ==> |msgs[i]| >= 16
  {
    if batches == [] then []
    else SplitAll(batches[..|batches| - 1]) + Split(batches[|batches| - 1], 0)
  }

  function Selected(dump: seq<seq<byte>>, select: seq<byte> -> bool): (r: seq<seq<byte>>)
    ensures forall i :: 0 <= i < |r| ==> r[i] in dump && select(r[i])
  {
    if dump == [] then []
    else (if select(dump[0]) then [dump[0]] else []) + Selected(dump[1..], select)
  }

  /** The delete requests for `msgs`, numbered consecutively after `seqno`. */
  function Deletes(msgs: seq<seq<byte>>, seqno: nat): (r: seq<seq<byte>>)
    requires forall i :: 0 <= i < |msgs| ==> |msgs[i]| >= 16
    ensures |r| == |msgs|
  {
    if msgs == [] then []
    else [Rewrite(msgs[0], Seqno(seqno, 1))] + Deletes(msgs[1..], Seqno(seqno, 1))
  }

  // ------------------------------------------------------------------ layout

  /** Where the last of `msgs` ends when the first starts at `p` and each next one is aligned. */
  function End(p: nat, msgs: seq<seq<byte>>): nat
    decreases |msgs|
  {
    if msgs == [] then p
    else if |msgs| == 1 then p + |msgs[0]|
    else End(Align4(p + |msgs[0]|), msgs[1..])
  }

  ghost predicate PackedAt(b: seq<byte>, p: nat, msgs: seq<seq<byte>>)
    decreases |msgs|
  {
    msgs == [] || (HasAt(b, p, msgs[0]) && PackedAt(b, Align4(p + |msgs[0]|), msgs[1..]))
  }

  lemma {:induction false} EndSnoc(p: nat, msgs: seq<seq<byte>>, n: seq<byte>)
    requires p % 4 == 0
    ensures End(p, msgs + [n]) == Align4(End(p, msgs)) + |n|
    decreases |msgs|
  {
    if msgs != [] {
      assert (msgs + [n])[1..] == msgs[1..] + [n];
      EndSnoc(Align4(p + |msgs[0]|), msgs[1..], n);
    }
  }

  lemma {:induction false} PackedSnoc(b: seq<byte>, p: nat, msgs: seq<seq<byte>>, n: seq<byte>)
    requires p % 4 == 0 && PackedAt(b, p, msgs) && HasAt(b, Align4(End(p, msgs)), n)
    ensures PackedAt(b, p, msgs + [n])
    decreases |msgs|
  {
    hide HasAt;
    if msgs == [] {
      assert (msgs + [n])[1..] == [];
    } else {
      assert (msgs + [n])[1..] == msgs[1..] + [n];
      PackedSnoc(b, Align4(p + |msgs[0]|), msgs[1..], n);
    }
  }

  lemma {:induction false} EndGrows(p: nat, msgs: seq<seq<byte>>)
    ensures p <= End(p, msgs)
    ensures msgs != [] ==> p + |msgs[0]| <= End(p, msgs)
    decreases |msgs|
  {
    if |msgs| > 1 { EndGrows(Align4(p + |msgs[0]|), msgs[1..]); }
  }

  lemma {:induction false} PackedFrame(b: seq<byte>, b': seq<byte>, p: nat, msgs: seq<seq<byte>>)
    requires PackedAt(b, p, msgs) && End(p, msgs) <= |b| && Same(b, b', 0, End(p, msgs))
    ensures PackedAt(b', p, msgs)
    decreases |msgs|
  {
    if msgs != [] {
      EndGrows(p, msgs);
      if |msgs| > 1 { PackedFrame(b, b', Align4(p + |msgs[0]|), msgs[1..]); }
    }
  }

  /** A packed buffer cut at its fill mark splits into exactly the packed messages. */
  lemma {:induction false} SplitPacked(b: seq<byte>, p: nat, msgs: seq<seq<byte>>)
    requires p % 4 == 0 && PackedAt(b, p, msgs) && (|b| == End(p, msgs) || (msgs == [] && |b| <= p))
    requires forall i :: 0 <= i < |msgs| ==> IsMessage(msgs[i])
    ensures Split(b, p) == msgs
    decreases |msgs|
  {
    hide HasAt, Get32, Align4;
    if msgs != [] {
      var n, m := |msgs[0]|, msgs[0];
      EndGrows(p, msgs);
      HasAtSlice(b, p, m);
      LengthField(b, p, m);
      Align4Plus(p, n);
      if |msgs| == 1 {
        assert msgs[1..] == [];
        SplitPacked(b, Align4(p + n), []);
      } else {
        SplitPacked(b, Align4(p + n), msgs[1..]);
      }
      assert msgs == [m] + msgs[1..];
    }
  }

  lemma LengthField(b: seq<byte>, p: nat, m: seq<byte>)
    requires HasAt(b, p, m) && |m| >= 4
    ensures Get32(b, p) == Get32(m, 0)
  {
    assert b[p + 0] == m[0] && b[p + 1] == m[1] && b[p + 2] == m[2] && b[p + 3] == m[3];
  }

  /** The delete request is a message of the same length and payload, with type, flags and number replaced. */
  lemma RewriteFields(n: seq<byte>, seqno: nat)
    requires IsMessage(n) && seqno < U32_MOD
    ensures var d := Rewrite(n, seqno);
            IsMessage(d) && Get16(d, 4) == 25 && Get16(d, 6) == 1 &&
            Get32(d, 8) == seqno && d[12..] == n[12..]
  {
    var d := Rewrite(n, seqno);
    assert d[4..6] == Le16(RTM_DELROUTE) && d[6..8] == Le16(NLM_F_REQUEST) && d[8..12] == Le32(seqno);
    Get16OfLe16(d, 4, RTM_DELROUTE);
    Get16OfLe16(d, 6, NLM_F_REQUEST);
    Get32OfLe32(d, 8, seqno);
    assert forall i :: 0 <= i < 4 ==> d[i] == n[i];
  }

  // ------------------------------------------------------------------ batching

  /** The buffer up to its fill mark holds exactly the requests `pending`. */
  ghost predicate Holding(s: State, pending: seq<seq<byte>>) {
    PackedAt(s.buf, 0, pending) && s.flushp == End(0, pending) <= |s.buf| &&
    forall i :: 0 <= i < |pending| ==> IsMessage(pending[i])
  }

  lemma {:induction false} UpdateSends(s: State, ok: nat -> bool, pending: seq<seq<byte>>)
    requires Holding(s, pending) && Update(s, ok).Some?
    ensures var r := Update(s, ok).value;
            Holding(r, []) && r.flushed == s.flushed && r.seqno == s.seqno && |r.buf| == |s.buf| && r.flushp == 0 &&
            SplitAll(r.sent) == SplitAll(s.sent) + pending &&
            r.sent == s.sent + [s.buf[..s.flushp]] && Split(s.buf[..s.flushp], 0) == pending
  {
    var b := s.buf[..s.flushp];
    assert PackedAt(b, 0, pending) by { PackedPrefix(s.buf, 0, pending, s.flushp); }
    SplitPacked(b, 0, pending);
    assert (s.sent + [b])[..|s.sent|] == s.sent;
  }

  lemma {:induction false} PackedPrefix(b: seq<byte>, p: nat, msgs: seq<seq<byte>>, n: nat)
    requires PackedAt(b, p, msgs) && End(p, msgs) <= n <= |b|
    ensures PackedAt(b[..n], p, msgs)
    decreases |msgs|
  {
    if msgs != [] {
      EndGrows(p, msgs);
      if |msgs| > 1 { PackedPrefix(b, Align4(p + |msgs[0]|), msgs[1..], n); }
    }
  }

  /** Queueing loses nothing and reorders nothing: sent and pending requests grow by exactly the new one. */
  lemma {:induction false} QueueKeeps(s: State, n: seq<byte>, ok: nat -> bool, pending: seq<seq<byte>>)
    returns (pending': seq<seq<byte>>)
    requires Holding(s, pending) && IsMessage(n) && |n| <= |s.buf| && Queue(s, n, ok).Some?
    ensures var r := Queue(s, n, ok).value;
            Holding(r, pending') && pending' != [] && r.flushed == s.flushed + 1 && r.seqno == Seqno(s.seqno, 1) &&
            SplitAll(r.sent) + pending' == SplitAll(s.sent) + pending + [Rewrite(n, r.seqno)] &&
            (if r.sent == s.sent then pending' == pending + [Rewrite(n, r.seqno)]
             else SplitAll(r.sent) == SplitAll(s.sent) + pending && pending' == [Rewrite(n, r.seqno)] &&
                  |r.sent| == |s.sent| + 1 && r.sent[..|s.sent|] == s.sent && Split(r.sent[|s.sent|], 0) == pending)
  {
    hide SplitAll, Split, Splice, PackedAt, Rewrite;
    var seqno := Seqno(s.seqno, 1);
    var d := Rewrite(n, seqno);
    RewriteFields(n, seqno);
    var s1, pending1 := s, pending;
    if Align4(s.flushp) + |n| > |s.buf| {
      UpdateSends(s, ok, pending);
      s1, pending1 := Update(s, ok).value, [];
      assert SplitAll(s1.sent) + pending1 == SplitAll(s.sent) + pending;
      assert (s.sent + [s.buf[..s.flushp]])[..|s.sent|] == s.sent;
    }
    pending' := pending1 + [d];
    QueueOne(s1, d, pending1);
    assert SplitAll(s1.sent) + (pending1 + [d]) == SplitAll(s1.sent) + pending1 + [d];
  }

  lemma {:induction false} QueueOne(s: State, d: seq<byte>, pending: seq<seq<byte>>)
    requires Holding(s, pending) && Align4(s.flushp) + |d| <= |s.buf|
    ensures var b := Splice(s.buf, Align4(s.flushp), d);
            PackedAt(b, 0, pending + [d]) && End(0, pending + [d]) == Align4(s.flushp) + |d|
  {
    var b := Splice(s.buf, Align4(s.flushp), d);
    PackedFrame(s.buf, b, 0, pending);
    PackedSnoc(b, 0, pending, d);
    EndSnoc(0, pending, d);
  }

  /** One message of a dump. */
  lemma QueueAllStep(s: State, dump: seq<seq<byte>>, select: seq<byte> -> bool, ok: nat -> bool)
    requires s.flushp <= |s.buf| && Fit(dump, |s.buf|) && dump != []
    ensures Fit(dump[1..], |s.buf|)
    ensures Selected(dump, select) == (if select(dump[0]) then [dump[0]] else []) + Selected(dump[1..], select)
    ensures QueueAll(s, dump, select, ok) ==
            if !select(dump[0]) then QueueAll(s, dump[1..], select, ok)
            else if Queue(s, dump[0], ok).None? then None
            else QueueAll(Queue(s, dump[0], ok).value, dump[1..], select, ok)
  {
    hide Queue;
    assert [] + Selected(dump[1..], select) == Selected(dump[1..], select);
  }

  lemma {:induction false} QueueAllKeeps(
    s: State, dump: seq<seq<byte>>, select: seq<byte> -> bool, ok: nat -> bool, pending: seq<seq<byte>>)
    returns (pending': seq<seq<byte>>)
    requires Holding(s, pending) && s.seqno < U32_MOD
    requires AllMessages(dump) && Fit(dump, |s.buf|)
    requires QueueAll(s, dump, select, ok).Some?
    ensures var r, chosen := QueueAll(s, dump, select, ok).value, Selected(dump, select);
            Holding(r, pending') && r.flushed == s.flushed + |chosen| &&
            r.seqno == Seqno(s.seqno, |chosen|) &&
            SplitAll(r.sent) + pending' == SplitAll(s.sent) + pending + Deletes(chosen, s.seqno)
    decreases |dump|
  {
    hide SplitAll, Queue, Rewrite;
    assert s.flushp <= |s.buf|;
    hide Holding, IsMessage, Seqno;
    if dump == [] {
      pending' := pending;
      SeqnoTwice(s.seqno, 0, 0);
      assert SplitAll(s.sent) + pending + [] == SplitAll(s.sent) + pending;
    } else {
      QueueAllStep(s, dump, select, ok);
      hide Deletes, QueueAll, Selected;
      var rest := Selected(dump[1..], select);
      assert AllMessages(dump[1..]);
      if select(dump[0]) {
        var p1 := QueueKeeps(s, dump[0], ok, pending);
        var s1 := Queue(s, dump[0], ok).value;
        pending' := QueueAllKeeps(s1, dump[1..], select, ok, p1);
        DeletesCons(dump[0], rest, s.seqno, SplitAll(s.sent) + pending);
        SeqnoTwice(s.seqno, 1, |rest|);
      } else {
        assert [] + rest == rest;
        pending' := QueueAllKeeps(s, dump[1..], select, ok, pending);
      }
    }
  }

  lemma DeletesCons(n: seq<byte>, rest: seq<seq<byte>>, seqno: nat, before: seq<seq<byte>>)
    requires |n| >= 16 && forall i :: 0 <= i < |rest| ==> |rest[i]| >= 16
    ensures var next := Seqno(seqno, 1);
            before + [Rewrite(n, next)] + Deletes(rest, next) == before + Deletes([n] + rest, seqno)
  {
    assert ([n] + rest)[1..] == rest;
  }

  /**
   * A whole round from an empty buffer: the batches, split by their length fields, are exactly the
   * selected dump messages in order, as delete requests with consecutive numbers.
   */
  lemma {:induction false} RoundSends(s: State, dump: seq<seq<byte>>, select: seq<byte> -> bool, ok: nat -> bool)
    requires s.flushp == 0 && s.flushed == 0 && s.seqno < U32_MOD
    requires AllMessages(dump) && Fit(dump, |s.buf|)
    requires QueueAll(s, dump, select, ok).Some? && Update(QueueAll(s, dump, select, ok).value, ok).Some?
    ensures var r := Update(QueueAll(s, dump, select, ok).value, ok).value;
            var chosen := Selected(dump, select);
            r.flushp == 0 && r.flushed == |chosen| && r.seqno == Seqno(s.seqno, |chosen|) &&
            SplitAll(r.sent) == SplitAll(s.sent) + Deletes(chosen, s.seqno)
  {
    hide SplitAll, QueueAll;
    var pending := QueueAllKeeps(s, dump, select, ok, []);
    UpdateSends(QueueAll(s, dump, select, ok).value, ok, pending);
    assert SplitAll(s.sent) + [] == SplitAll(s.sent);
  }

  // ------------------------------------------------------------------- rounds

  const RTM_NEWROUTE := 24
  const NLM_F_MULTI := 2

  /** A route as the kernel keeps it: the bytes after the netlink header. */
  type Route = seq<byte>

  /** The dump message that reports one route. */
  function Report(r: Route, seqno: nat, pid: nat): (n: seq<byte>)
    ensures |n| == 16 + |r| && n[16..] == r
  {
    Le32(16 + |r|) + Le16(RTM_NEWROUTE) + Le16(NLM_F_MULTI) + Le32(seqno) + Le32(pid) + r
  }

  /** A selector that reads the route only, so its verdict does not change during a dump. */
  function OnRoute(select: Route -> bool): seq<byte> -> bool {
    n => |n| >= 16 && select(n[16..])
  }

  /** The kernel performs a delete: the first such route goes. */
  function Delete(table: seq<Route>, r: Route): seq<Route> {
    if table == [] then []
    else if table[0] == r then table[1..]
    else [table[0]] + Delete(table[1..], r)
  }

  function DeleteEach(table: seq<Route>, routes: seq<Route>): seq<Route>
    decreases |routes|
  {
    if routes == [] then table else DeleteEach(Delete(table, routes[0]), routes[1..])
  }

  /** The routes that requests name. */
  function Named(msgs: seq<seq<byte>>): (r: seq<Route>)
    ensures |r| == |msgs| && forall i :: 0 <= i < |r| ==> r[i] == Name(msgs[i])
  {
    seq(|msgs|, i requires 0 <= i < |msgs| => Name(msgs[i]))
  }

  function Name(n: seq<byte>): Route { if |n| < 16 then [] else n[16..] }

  /** The routes of a table that are selected, or those that are not. */
  function Filter(table: seq<Route>, select: Route -> bool, want: bool): (r: seq<Route>)
    ensures forall i :: 0 <= i < |r| ==> select(r[i]) == want
  {
    if table == [] then []
    else (if select(table[0]) == want then [table[0]] else []) + Filter(table[1..], select, want)
  }

  lemma ReportIsMessage(r: Route, seqno: nat, pid: nat)
    requires 16 + |r| < U32_MOD
    ensures IsMessage(Report(r, seqno, pid))
  {
    var n := Report(r, seqno, pid);
    assert n[0..4] == Le32(16 + |r|);
    Get32OfLe32(n, 0, 16 + |r|);
  }

  lemma RewriteNames(n: seq<byte>, seqno: nat)
    requires |n| >= 16
    ensures Rewrite(n, seqno)[16..] == n[16..]
  {
    var d := Rewrite(n, seqno);
    assert d[16..] == d[12..][4..] && n[16..] == n[12..][4..];
    assert d[12..] == n[12..];
  }

  // -------------------------------------------------------- deletes in a table

  /** A delete that names a route in front leaves what is behind as it is. */
  lemma {:induction false} DeleteFront(x: seq<Route>, y: seq<Route>, r: Route)
    requires r in x
    ensures Delete(x + y, r) == Delete(x, r) + y
  {
    assert (x + y)[1..] == x[1..] + y;
    if x[0] != r {
      DeleteFront(x[1..], y, r);
      assert [x[0]] + (Delete(x[1..], r) + y) == [x[0]] + Delete(x[1..], r) + y;
    }
  }

  lemma {:induction false} DeleteFrom(x: seq<Route>, r: Route)
    requires r in x
    ensures |Delete(x, r)| == |x| - 1 && multiset(Delete(x, r)) == multiset(x) - multiset{r}
  {
    assert x == [x[0]] + x[1..];
    if x[0] != r {
      DeleteFrom(x[1..], r);
      assert multiset([x[0]] + Delete(x[1..], r)) == multiset{x[0]} + multiset(Delete(x[1..], r));
    }
  }

  lemma {:induction false} DeleteEachFront(x: seq<Route>, y: seq<Route>, routes: seq<Route>)
    requires multiset(routes) <= multiset(x)
    ensures DeleteEach(x + y, routes) == DeleteEach(x, routes) + y && |DeleteEach(x, routes)| == |x| - |routes|
    ensures multiset(DeleteEach(x, routes)) == multiset(x) - multiset(routes)
    decreases |routes|
  {
    hide Delete;
    if routes == [] {
      assert multiset(routes) == multiset{};
    } else {
      var r := routes[0];
      WithinStep(routes, multiset(x));
      DeleteFront(x, y, r);
      DeleteFrom(x, r);
      DeleteEachFront(Delete(x, r), y, routes[1..]);
    }
  }

  /** The same for a batch whose routes all lie in the first `pos` entries. */
  lemma DeletePast(table: seq<Route>, pos: nat, routes: seq<Route>)
    requires pos <= |table| && multiset(routes) <= multiset(table[..pos])
    ensures |routes| <= pos
    ensures var t, p := DeleteEach(table, routes), pos - |routes|;
            |t| == |table| - |routes| && t[p..] == table[pos..] &&
            multiset(t[..p]) == multiset(table[..pos]) - multiset(routes)
  {
    hide DeleteEach;
    var x, y := table[..pos], table[pos..];
    assert table == x + y;
    DeleteEachFront(x, y, routes);
    var d, p := DeleteEach(x, routes), pos - |routes|;
    assert (d + y)[..p] == d && (d + y)[p..] == y;
  }

  lemma WithinStep(routes: seq<Route>, m: multiset<Route>)
    requires routes != [] && multiset(routes) <= m
    ensures var r, rest := routes[0], multiset(routes[1..]);
            r in m && rest <= m - multiset{r} && m - multiset(routes) == m - multiset{r} - rest
  {
    assert routes == [routes[0]] + routes[1..];
    assert multiset(routes) == multiset{routes[0]} + multiset(routes[1..]);
    assert routes[0] in multiset(routes);
  }

  /** Deleting selected routes never touches the others, and takes one selected route each. */
  lemma {:induction false} DeleteFilters(table: seq<Route>, routes: seq<Route>, select: Route -> bool)
    requires forall i :: 0 <= i < |routes| ==> select(routes[i])
    ensures Filter(DeleteEach(table, routes), select, false) == Filter(table, select, false)
    ensures multiset(routes) <= multiset(table) ==>
              |Filter(DeleteEach(table, routes), select, true)| == |Filter(table, select, true)| - |routes|
    decreases |routes|
  {
    hide Delete, Filter;
    if routes != [] {
      var r, t := routes[0], Delete(table, routes[0]);
      DeleteFilter(table, r, select);
      DeleteFilters(t, routes[1..], select);
      if multiset(routes) <= multiset(table) {
        WithinStep(routes, multiset(table));
        DeleteFrom(table, r);
      }
    }
  }

  lemma {:induction false} DeleteFilter(table: seq<Route>, r: Route, select: Route -> bool)
    requires select(r)
    ensures Filter(Delete(table, r), select, false) == Filter(table, select, false)
    ensures r in table ==> |Filter(Delete(table, r), select, true)| == |Filter(table, select, true)| - 1
  {
    if table != [] {
      var rest := table[1..];
      if table[0] == r {
        assert [] + Filter(rest, select, false) == Filter(rest, select, false);
      } else {
        DeleteFilter(rest, r, select);
        assert ([table[0]] + Delete(rest, r))[1..] == Delete(rest, r);
      }
    }
  }

  lemma {:induction false} FilterSplit(table: seq<Route>, pos: nat, select: Route -> bool, want: bool)
    requires pos <= |table|
    ensures Filter(table, select, want) == Filter(table[..pos], select, want) + Filter(table[pos..], select, want)
  {
    if pos == 0 {
      assert table[0..] == table;
    } else {
      FilterSplit(table[1..], pos - 1, select, want);
      assert table[..pos][1..] == table[1..][..pos - 1] && table[1..][pos - 1..] == table[pos..];
      var h := if select(table[0]) == want then [table[0]] else [];
      var x, y := Filter(table[1..][..pos - 1], select, want), Filter(table[pos..], select, want);
      assert h + (x + y) == h + x + y;
    }
  }

  /** Once nothing selected is left, the table is what was not selected. */
  lemma {:induction false} FilterNone(table: seq<Route>, select: Route -> bool)
    requires Filter(table, select, true) == []
    ensures Filter(table, select, false) == table
  {
    if table != [] {
      FilterNone(table[1..], select);
      assert table == [table[0]] + table[1..];
    }
  }

  /** No route's report is longer than the flush buffer. */
  predicate Reportable(table: seq<Route>, capacity: nat) {
    forall i :: 0 <= i < |table| ==> 16 + |table[i]| <= capacity
  }

  lemma {:induction false} DeleteReportable(table: seq<Route>, routes: seq<Route>, capacity: nat)
    requires Reportable(table, capacity)
    ensures Reportable(DeleteEach(table, routes), capacity)
    decreases |routes|
  {
    if routes != [] {
      DeletesFrom(table, routes[0]);
      DeleteReportable(Delete(table, routes[0]), routes[1..], capacity);
    }
  }

  lemma DeletesFrom(table: seq<Route>, r: Route)
    ensures forall i :: 0 <= i < |Delete(table, r)| ==> Delete(table, r)[i] in table
  {
  }

  /** The kernel reads a batch and performs every delete in it. */
  function Receive(table: seq<Route>, batch: seq<byte>): seq<Route> {
    DeleteEach(table, Named(Split(batch, 0)))
  }

  const ALWAYS: nat -> bool := _ => true

  // -------------------------------------------------- a dump while deletes go on

  /**
   * The middle of a dump. `table` is what the kernel has now, `pos` where it will go on, `names` the
   * routes whose delete requests are still in the buffer, `start` the table when the dump began. If
   * nothing was skipped, every selected route before `pos` is about to be deleted.
   */
  ghost predicate Midway(start: seq<Route>, table: seq<Route>, pos: nat, names: seq<Route>, flushed: nat,
                         select: Route -> bool, whole: bool)
  {
    pos <= |table| && multiset(names) <= multiset(table[..pos]) &&
    (forall i :: 0 <= i < |names| ==> select(names[i])) &&
    Filter(table, select, false) == Filter(start, select, false) &&
    |Filter(table, select, true)| + flushed == |Filter(start, select, true)| + |names| &&
    (flushed == 0 ==> table == start && names == [] && Filter(table[..pos], select, true) == []) &&
    (whole ==> |Filter(table[..pos], select, true)| == |names|)
  }

  lemma MidwayStart(table: seq<Route>, select: Route -> bool, whole: bool)
    ensures Midway(table, table, 0, [], 0, select, whole)
  {
    assert table[..0] == [];
  }

  /** One more route is reported; a selected one joins those to be deleted. */
  lemma MidwayReport(
    start: seq<Route>, table: seq<Route>, pos: nat, names: seq<Route>, flushed: nat, select: Route -> bool, whole: bool)
    requires Midway(start, table, pos, names, flushed, select, whole) && pos < |table|
    ensures var r := table[pos];
            if select(r) then Midway(start, table, pos + 1, names + [r], flushed + 1, select, whole)
            else Midway(start, table, pos + 1, names, flushed, select, whole)
  {
    var r, past := table[pos], table[..pos + 1];
    assert past == table[..pos] + [r];
    assert past[..pos] == table[..pos] && past[pos..] == [r];
    FilterSplit(past, pos, select, true);
    FilterSingle(r, select);
    assert multiset(names + [r]) == multiset(names) + multiset{r};
  }

  lemma FilterSingle(r: Route, select: Route -> bool)
    ensures Filter([r], select, true) == if select(r) then [r] else []
  {
    assert [r][1..] == [];
  }

  /** A batch with all older requests goes out: the routes it names go from behind the cursor. */
  lemma MidwaySend(
    start: seq<Route>, table: seq<Route>, pos: nat, names: seq<Route>, r: Route, flushed: nat, select: Route -> bool,
    whole: bool)
    requires Midway(start, table, pos, names + [r], flushed, select, whole) && flushed > 0
    ensures |names| <= pos
    ensures var t, p := DeleteEach(table, names), pos - |names|;
            Midway(start, t, p, [r], flushed, select, whole) && |t| == |table| - |names|
  {
    hide Filter, DeleteEach;
    assert multiset(names + [r]) == multiset(names) + multiset{r};
    assert (names + [r])[|names|] == r && forall i :: 0 <= i < |names| ==> names[i] == (names + [r])[i];
    DeletePast(table, pos, names);
    PrefixWithin(table, pos);
    DeleteFilters(table, names, select);
    var t, p := DeleteEach(table, names), pos - |names|;
    FilterSplit(table, pos, select, true);
    FilterSplit(t, p, select, true);
  }

  lemma PrefixWithin(table: seq<Route>, pos: nat)
    requires pos <= |table|
    ensures multiset(table[..pos]) <= multiset(table)
  {
    assert table == table[..pos] + table[pos..];
  }

  /** After a batch the kernel may go on further behind than it stopped. */
  lemma MidwaySkip(
    start: seq<Route>, table: seq<Route>, pos: nat, pos': nat, names: seq<Route>, flushed: nat, select: Route -> bool,
    whole: bool)
    requires Midway(start, table, pos, names, flushed, select, whole) && pos <= pos' <= |table| && flushed > 0
    requires whole ==> pos' == pos
    ensures Midway(start, table, pos', names, flushed, select, whole)
  {
    assert table[..pos'][..pos] == table[..pos];
    PrefixWithin(table[..pos'], pos);
  }

  /** The last batch of a round. */
  lemma MidwayEnd(
    start: seq<Route>, table: seq<Route>, names: seq<Route>, flushed: nat, select: Route -> bool, whole: bool)
    requires Midway(start, table, |table|, names, flushed, select, whole)
    ensures var t := DeleteEach(table, names);
            Filter(t, select, false) == Filter(start, select, false) &&
            |Filter(t, select, true)| + flushed == |Filter(start, select, true)| &&
            (whole ==> Filter(t, select, true) == []) &&
            (flushed == 0 ==> t == start && Filter(start, select, true) == [])
  {
    assert table[..|table|] == table;
    DeleteFilters(table, names, select);
  }

  lemma MidwayBounds(
    start: seq<Route>, table: seq<Route>, pos: nat, names: seq<Route>, flushed: nat, select: Route -> bool, whole: bool)
    requires Midway(start, table, pos, names, flushed, select, whole)
    ensures pos <= |table|
  {
  }

  lemma MidwayIdle(
    start: seq<Route>, table: seq<Route>, pos: nat, names: seq<Route>, select: Route -> bool, whole: bool)
    requires Midway(start, table, pos, names, 0, select, whole)
    ensures table == start
  {
  }

  lemma HoldingFacts(s: State, pending: seq<seq<byte>>)
    requires Holding(s, pending)
    ensures s.flushp <= |s.buf| && forall i :: 0 <= i < |pending| ==> IsMessage(pending[i]) && |pending[i]| >= 16
  {
  }

  lemma SendsAlways(s: State, n: seq<byte>)
    requires s.flushp <= |s.buf| && 16 <= |n| <= |s.buf|
    ensures Queue(s, n, ALWAYS).Some?
  {
    hide Rewrite, Splice;
  }

  lemma ReportFits(table: seq<Route>, i: nat, seqno: nat, pid: nat, capacity: nat)
    requires i < |table| && Reportable(table, capacity) && capacity < U32_MOD
    ensures var n := Report(table[i], seqno, pid);
            IsMessage(n) && 16 <= |n| <= capacity && n[16..] == table[i]
  {
    hide Report;
    ReportIsMessage(table[i], seqno, pid);
  }

  lemma EmptyRound(s: State, select: seq<byte> -> bool)
    requires s.flushp == 0
    ensures Holding(s, []) && QueueAll(s, [], select, ALWAYS) == Some(s)
  {
  }

  lemma MessagesSnoc(dump: seq<seq<byte>>, n: seq<byte>)
    requires AllMessages(dump) && IsMessage(n)
    ensures AllMessages(dump + [n])
  {
  }

  /** Reading one more message. */
  lemma {:induction false} QueueAllSnoc(
    s: State, dump: seq<seq<byte>>, n: seq<byte>, r: State, select: seq<byte> -> bool)
    requires s.flushp <= |s.buf| && Fit(dump, |s.buf|) && 16 <= |n| <= |s.buf|
    requires QueueAll(s, dump, select, ALWAYS) == Some(r)
    ensures Fit(dump + [n], |s.buf|)
    ensures QueueAll(s, dump + [n], select, ALWAYS) == if select(n) then Queue(r, n, ALWAYS) else Some(r)
    decreases |dump|
  {
    hide Queue;
    if dump == [] {
      assert dump + [n] == [n] && [n][1..] == [];
      if select(n) && Queue(s, n, ALWAYS).Some? {
        assert QueueAll(Queue(s, n, ALWAYS).value, [], select, ALWAYS).Some?;
      }
    } else {
      assert (dump + [n])[1..] == dump[1..] + [n];
      var s1 := if select(dump[0]) then Queue(s, dump[0], ALWAYS) else Some(s);
      assert Fit(dump[1..], |s.buf|);
      QueueAllSnoc(s1.value, dump[1..], n, r, select);
    }
  }

  // --------------------------------------------------------- in place, in loops

  /** The flush buffer and counters that `print_route` and the flush loop share. */
  class Flusher {
    const buf: array<byte>
    var flushp: nat
    var flushed: nat
    var seqno: nat
    var sent: seq<seq<byte>>

    ghost function Model(): State
      reads this, buf
    {
      State(buf[..], flushp, flushed, seqno, sent)
    }

    constructor (capacity: nat, seqno: nat)
      ensures fresh(buf) && buf.Length == capacity && flushp == flushed == 0 && this.seqno == seqno && sent == []
    {
      buf := new byte[capacity](_ => 0);
      flushp, flushed, this.seqno, sent := 0, 0, seqno, [];
    }

    method FlushUpdate(ok: nat -> bool) returns (done: bool)
      requires flushp <= buf.Length
      modifies this
      ensures var r := Update(old(Model()), ok);
              done == r.Some? && (done ==> Model() == r.value)
    {
      if !ok(|sent|) { return false; }
      sent := sent + [buf[..flushp]];
      flushp := 0;
      done := true;
    }

    /** The flush branch of `print_route`. */
    method QueueRoute(n: seq<byte>, ok: nat -> bool) returns (done: bool)
      requires flushp <= buf.Length && 16 <= |n| <= buf.Length
      modifies this, buf
      ensures var r := Queue(old(Model()), n, ok);
              done == r.Some? && (done ==> Model() == r.value)
    {
      hide Rewrite, Splice, Align4, Seqno, Update;
      if Align4(flushp) + |n| > buf.Length {
        done := FlushUpdate(ok);
        if !done { return; }
      }
      var p := Align4(flushp);
      seqno := Seqno(seqno, 1);
      CopyTo(buf, p, Rewrite(n, seqno));
      flushp := p + |n|;
      flushed := flushed + 1;
      done := true;
    }

    /**
     * A selected message is queued while the kernel stands at `pos` of `left`. If that sends a batch,
     * the kernel performs its deletes at once, and the dump goes on in the table they leave.
     */
    method QueueLive(n: seq<byte>, left: seq<Route>, pos: nat, ghost pending: seq<seq<byte>>,
                     ghost start: seq<Route>, ghost select: Route -> bool, ghost whole: bool)
      returns (left': seq<Route>, pos': nat, ghost pending': seq<seq<byte>>)
      requires Holding(Model(), pending) && IsMessage(n) && |n| <= buf.Length && Reportable(left, buf.Length)
      requires Midway(start, left, pos, Named(pending) + [n[16..]], flushed + 1, select, whole)
      modifies this, buf
      ensures Queue(old(Model()), n, ALWAYS) == Some(Model()) && Holding(Model(), pending')
      ensures Midway(start, left', pos', Named(pending'), flushed, select, whole) && |left'| - pos' == |left| - pos
      ensures Reportable(left', buf.Length) && flushed == old(flushed) + 1
    {
      hide Holding, Queue, Midway, Reportable, DeleteEach, Rewrite, Seqno;
      ghost var s, r := Model(), n[16..];
      HoldingFacts(s, pending);
      SendsAlways(s, n);
      pending' := QueueKeeps(s, n, ALWAYS, pending);
      var before := |sent|;
      var done := QueueRoute(n, ALWAYS);
      RewriteNames(n, seqno);
      HoldingFacts(Model(), pending');
      if |sent| == before {
        left', pos' := left, pos;
        assert Named(pending') == Named(pending) + [r];
      } else {
        left' := Receive(left, sent[before]);
        MidwaySend(start, left, pos, Named(pending), r, flushed, select, whole);
        DeleteReportable(left, Named(pending), buf.Length);
        pos' := pos - (|left| - |left'|);
        assert Named(pending') == [r];
      }
    }

    /** The state of a dump that began as `began`: what arrived, and what is still to be sent. */
    ghost predicate Reading(began: State, start: seq<Route>, left: seq<Route>, pos: nat, pending: seq<seq<byte>>,
                            got: seq<seq<byte>>, select: Route -> bool, whole: bool)
      reads this, buf
    {
      began.flushp == 0 && |began.buf| == buf.Length < U32_MOD && (flushed == 0 ==> sent == []) &&
      AllMessages(got) && Fit(got, buf.Length) && Reportable(left, buf.Length) && Holding(Model(), pending) &&
      QueueAll(began, got, OnRoute(select), ALWAYS) == Some(Model()) &&
      Midway(start, left, pos, Named(pending), flushed, select, whole)
    }

    /** One message of the dump. */
    method ReadOne(left: seq<Route>, pos: nat, dump: nat, pid: nat, select: Route -> bool, ghost began: State,
                   ghost start: seq<Route>, ghost pending: seq<seq<byte>>, ghost got: seq<seq<byte>>, ghost whole: bool)
      returns (left': seq<Route>, pos': nat, ghost pending': seq<seq<byte>>)
      requires Reading(began, start, left, pos, pending, got, select, whole) && pos < |left|
      modifies this, buf
      ensures pos' <= |left'| && |left'| - pos' == |left| - pos - 1
      ensures Reading(began, start, left', pos', pending', got + [Report(left[pos], dump, pid)], select, whole)
    {
      hide Midway, Holding, QueueAll, Queue, Report, Reportable, IsMessage;
      var r, n := left[pos], Report(left[pos], dump, pid);
      ReportFits(left, pos, dump, pid, buf.Length);
      MidwayReport(start, left, pos, Named(pending), flushed, select, whole);
      assert OnRoute(select)(n) == select(r);
      hide OnRoute, Named, Name, AllMessages, Fit;
      ghost var s := Model();
      HoldingFacts(s, pending);
      MessagesSnoc(got, n);
      QueueAllSnoc(began, got, n, s, OnRoute(select));
      left', pos', pending' := left, pos + 1, pending;
      if select(r) { left', pos', pending' := QueueLive(n, left, pos + 1, pending, start, select, whole); }
      MidwayBounds(start, left', pos', Named(pending'), flushed, select, whole);
    }

    /**
     * A dump of the kernel's table, message by message, while the batches it leads to are carried
     * out. Once a batch was sent, the kernel may leave out `skip(i)` routes before message `i`.
     * What arrives is queued as any other dump.
     */
    method ReadDump(table: seq<Route>, select: Route -> bool, pid: nat, skip: nat -> nat)
      returns (left: seq<Route>, ghost got: seq<seq<byte>>, ghost pending: seq<seq<byte>>)
      requires flushp == flushed == 0 && sent == [] && buf.Length < U32_MOD && Reportable(table, buf.Length)
      modifies this, buf
      ensures Reading(old(Model()), table, left, |left|, pending, got, select, forall i :: skip(i) == 0)
    {
      hide Midway, Holding, QueueAll, Reportable;
      var dump, pos, i := seqno, 0, 0;
      left, got, pending := table, [], [];
      ghost var whole := forall i :: skip(i) == 0;
      MidwayStart(table, select, whole);
      EmptyRound(Model(), OnRoute(select));
      assert Named([]) == [];
      assert Reading(old(Model()), table, left, pos, pending, got, select, whole);
      while pos < |left|
        invariant 0 <= pos <= |left| && Reading(old(Model()), table, left, pos, pending, got, select, whole)
        decreases |left| - pos
      {
        if sent != [] {
          MidwaySkip(table, left, pos, Min(|left|, pos + skip(i)), Named(pending), flushed, select, whole);
          pos := Min(|left|, pos + skip(i));
        }
        assert Reading(old(Model()), table, left, pos, pending, got, select, whole);
        hide Reading;
        if pos < |left| {
          ghost var n := Report(left[pos], dump, pid);
          left, pos, pending := ReadOne(left, pos, dump, pid, select, old(Model()), table, pending, got, whole);
          got := got + [n];
        }
        i := i + 1;
      }
    }

    /** The batch after a dump, and the table the kernel is left with. */
    method SendLast(left: seq<Route>, ghost pending: seq<seq<byte>>)
      returns (left': seq<Route>, ghost batches: seq<seq<byte>>)
      requires Holding(Model(), pending) && flushp <= buf.Length
      modifies this
      ensures left' == DeleteEach(left, Named(pending)) && flushp == 0 && sent == []
      ensures flushed == old(flushed) && Update(old(Model()), ALWAYS).Some? &&
              batches == Update(old(Model()), ALWAYS).value.sent
    {
      hide Split, SplitAll, Holding, DeleteEach;
      UpdateSends(Model(), ALWAYS, pending);
      var before := |sent|;
      var done := FlushUpdate(ALWAYS);
      left' := Receive(left, sent[before]);
      batches := sent;
      sent := [];
    }

    /** What a finished dump has brought about, and what its last batch will. */
    lemma ReadingEnds(began: State, table: seq<Route>, left: seq<Route>, pending: seq<seq<byte>>,
                      got: seq<seq<byte>>, select: Route -> bool, whole: bool)
      requires Reading(began, table, left, |left|, pending, got, select, whole)
      requires began.flushed == 0 && began.sent == [] && began.seqno < U32_MOD
      ensures flushp <= buf.Length && Holding(Model(), pending)
      ensures flushed == |Selected(got, OnRoute(select))|
      ensures Update(Model(), ALWAYS).Some? &&
              SplitAll(Update(Model(), ALWAYS).value.sent) == Deletes(Selected(got, OnRoute(select)), began.seqno)
      ensures flushed == 0 ==> left == table && Filter(table, select, true) == [] &&
                               SplitAll([]) == Deletes(Selected(got, OnRoute(select)), began.seqno)
      ensures var t := DeleteEach(left, Named(pending));
              Filter(t, select, false) == Filter(table, select, false) && Reportable(t, buf.Length) &&
              |Filter(t, select, true)| + flushed == |Filter(table, select, true)| &&
              (whole ==> Filter(t, select, true) == [])
    {
      RoundSends(began, got, OnRoute(select), ALWAYS);
      hide Filter, Reportable, DeleteEach, QueueAll, Midway, Selected, Deletes, OnRoute, AllMessages, Fit;
      HoldingFacts(Model(), pending);
      MidwayEnd(table, left, Named(pending), flushed, select, whole);
      DeleteReportable(left, Named(pending), buf.Length);
      if flushed == 0 { MidwayIdle(table, left, |left|, Named(pending), select, whole); }
    }

    /**
     * One round: a dump, the deletes it leads to, and the table they leave. The batches carry exactly
     * the selected ones of the messages that arrived. No other route is touched, every request takes
     * a selected route, and a round without requests saw them all.
     */
    method FlushRound(table: seq<Route>, select: Route -> bool, pid: nat, skip: nat -> nat)
      returns (left: seq<Route>, ghost got: seq<seq<byte>>, ghost batches: seq<seq<byte>>)
      requires flushp == 0 && sent == [] && buf.Length < U32_MOD && Reportable(table, buf.Length)
      modifies this, buf
      ensures flushed == |Selected(got, OnRoute(select))|
      ensures SplitAll(batches) == Deletes(Selected(got, OnRoute(select)), Seqno(old(seqno), 1))
      ensures Filter(left, select, false) == Filter(table, select, false)
      ensures |Filter(left, select, true)| + flushed == |Filter(table, select, true)|
      ensures flushed == 0 ==> left == table && Filter(table, select, true) == []
      ensures (forall i :: skip(i) == 0) ==> Filter(left, select, true) == []
      ensures flushed != 0 ==> flushp == 0 && sent == [] && Reportable(left, buf.Length)
    {
      seqno := Seqno(seqno, 1);
      flushed := 0;
      ghost var pending;
      ghost var began := Model();
      assert began.flushed == 0 && began.sent == [] && began.seqno == seqno;
      hide *;
      left, got, pending := ReadDump(table, select, pid, skip);
      ReadingEnds(began, table, left, pending, got, select, forall i :: skip(i) == 0);
      if flushed == 0 {
        batches := [];
      } else {
        left, batches := SendLast(left, pending);
      }
    }

    /**
     * The flush loop against a kernel that reports its table, performs each delete as it comes and
     * adds nothing: it leaves exactly the routes that are not selected, after at most one dump more
     * than there were selected routes, and by its second dump if no dump leaves out routes.
     */
    method FlushRoutes(table: seq<Route>, select: Route -> bool, pid: nat, skip: (nat, nat) -> nat)
      returns (left: seq<Route>, dumps: nat)
      requires flushp == 0 && sent == [] && buf.Length < U32_MOD
      requires Reportable(table, buf.Length)
      modifies this, buf
      ensures left == Filter(table, select, false)
      ensures 1 <= dumps <= |Filter(table, select, true)| + 1
      ensures (forall d, i :: skip(d, i) == 0) ==> dumps == if Filter(table, select, true) == [] then 1 else 2
    {
      hide Filter, Reportable;
      left, dumps := table, 0;
      while true
        invariant flushp == 0 && sent == [] && Reportable(left, buf.Length)
        invariant Filter(left, select, false) == Filter(table, select, false)
        invariant dumps + |Filter(left, select, true)| <= |Filter(table, select, true)|
        invariant (forall d, i :: skip(d, i) == 0) ==>
                    if dumps == 0 then left == table
                    else dumps == 1 && Filter(left, select, true) == [] && Filter(table, select, true) != []
        decreases |Filter(left, select, true)|
      {
        var d := dumps;
        dumps := dumps + 1;
        ghost var got, batches;
        left, got, batches := FlushRound(left, select, pid, i => skip(d, i));
        if flushed == 0 {
          FilterNone(left, select);
          return;
        }
      }
    }
  }
}
