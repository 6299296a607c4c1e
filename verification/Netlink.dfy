/** Requests and replies on one rtnetlink handle: `rtnl_talk`, dumps, and what a run of them keeps. */
module Netlink {
  import opened Wire
  import opened Sequence

  const NLMSG_ERROR := 2
  const NLMSG_DONE := 3

  /**
   * A received message. `error` is the code inside an `NLMSG_ERROR` message, `None` when that is
   * truncated. `reply` is not on the wire: it is the number of the request the sender answers.
   */
  datatype Msg = Msg(typ: nat, seqno: nat, pid: nat, error: Option<int>, body: seq<byte>, reply: nat)

  /** What one `recvmsg` returns: the sender's port and a well-formed, untruncated list of messages. */
  datatype Datagram = Datagram(sender: nat, msgs: seq<Msg>)

  /** A filter of `rtnl_dump_filter_l`: its return value, and how often it draws a sequence number. */
  datatype Filter = Filter(verdict: Msg -> int, draws: Msg -> nat)

  // ------------------------------------------------------------------- dumps

  /** The messages of a datagram that carry our port and the expected sequence number. */
  function Mine(d: Datagram, pid: nat, seqno: nat): (r: seq<Msg>) {
    if d.sender != 0 then [] else Addressed(d.msgs, pid, seqno)
  }

  function Addressed(msgs: seq<Msg>, pid: nat, seqno: nat): (r: seq<Msg>)
    ensures forall m :: m in r ==> m in msgs && m.pid == pid && m.seqno == seqno
  {
    if msgs == [] then []
    else (if msgs[0].pid == pid && msgs[0].seqno == seqno then [msgs[0]] else []) + Addressed(msgs[1..], pid, seqno)
  }

  function AllMine(ds: seq<Datagram>, pid: nat, seqno: nat): seq<Msg> {
    if ds == [] then [] else AllMine(ds[..|ds| - 1], pid, seqno) + Mine(ds[|ds| - 1], pid, seqno)
  }

  /** A DONE message has type 3. */
  predicate HasDone(msgs: seq<Msg>) { exists i :: 0 <= i < |msgs| && msgs[i].typ == 3 }

  /** The messages before the first DONE. */
  function BeforeDone(msgs: seq<Msg>): seq<Msg> {
    if msgs == [] || msgs[0].typ == 3 then [] else [msgs[0]] + BeforeDone(msgs[1..])
  }

  /** How one filter's pass over the matching messages of a datagram ends. */
  datatype Pass = More(shown: seq<Msg>) | Done(shown: seq<Msg>) | Failed(shown: seq<Msg>, code: int)

  /** One filter over the matching messages: up to `NLMSG_DONE`, an error, or a negative verdict. */
  function RunFilter(f: Filter, msgs: seq<Msg>): (p: Pass) {
    if msgs == [] then More([])
    else if msgs[0].typ == NLMSG_DONE then Done([])
    else if msgs[0].typ == NLMSG_ERROR then Failed([], -1)
    else if f.verdict(msgs[0]) < 0 then Failed([msgs[0]], f.verdict(msgs[0]))
    else
      match RunFilter(f, msgs[1..])
      case More(shown) => More([msgs[0]] + shown)
      case Done(shown) => Done([msgs[0]] + shown)
      case Failed(shown, code) => Failed([msgs[0]] + shown, code)
  }

  /** A pass that does not fail shows everything before `NLMSG_DONE`, and ends the dump exactly at one. */
  lemma {:induction false} RunFilterShows(f: Filter, msgs: seq<Msg>)
    ensures !RunFilter(f, msgs).Failed? ==> RunFilter(f, msgs).shown == BeforeDone(msgs)
    ensures !RunFilter(f, msgs).Failed? ==> (RunFilter(f, msgs).Done? <==> HasDone(msgs))
  {
    if msgs != [] {
      RunFilterShows(f, msgs[1..]);
      HasDoneCons(msgs);
    }
  }

  lemma HasDoneCons(msgs: seq<Msg>)
    requires msgs != []
    ensures HasDone(msgs) <==> msgs[0].typ == NLMSG_DONE || HasDone(msgs[1..])
  {
    if i :| 0 <= i < |msgs| && msgs[i].typ == NLMSG_DONE && i > 0 {
      assert msgs[1..][i - 1].typ == NLMSG_DONE;
    }
    if i :| 0 <= i < |msgs[1..]| && msgs[1..][i].typ == NLMSG_DONE {
      assert msgs[i + 1].typ == NLMSG_DONE;
    }
  }

  /** The code with which a message makes the dump fail: an error message, of type 2, or one the filter rejects. */
  function Failure(f: Filter, m: Msg): Option<int> {
    if m.typ == 2 then Some(-1) else if f.verdict(m) < 0 then Some(f.verdict(m)) else None
  }

  predicate CleanFor(f: Filter, msgs: seq<Msg>) { forall i :: 0 <= i < |msgs| ==> Failure(f, msgs[i]).None? }

  /** Message `i` is the first that fails `f`, with `code`. */
  predicate FirstBad(f: Filter, msgs: seq<Msg>, i: nat, code: int) {
    i < |msgs| && Failure(f, msgs[i]) == Some(code) && CleanFor(f, msgs[..i])
  }

  /** What a filter has been shown when it fails at message `i`: an error message is not shown. */
  function ShownTo(msgs: seq<Msg>, i: nat): seq<Msg> {
    if i >= |msgs| then msgs else if msgs[i].typ == NLMSG_ERROR then msgs[..i] else msgs[..i + 1]
  }

  /** A pass fails exactly at the first message before DONE that fails the filter. */
  lemma {:induction false} RunFilterFails(f: Filter, msgs: seq<Msg>) returns (i: nat)
    ensures var p, before := RunFilter(f, msgs), BeforeDone(msgs);
            if p.Failed? then FirstBad(f, before, i, p.code) && p.shown == ShownTo(before, i) else CleanFor(f, before)
  {
    i := 0;
    if msgs != [] && msgs[0].typ != NLMSG_DONE {
      var h, rest := msgs[0], BeforeDone(msgs[1..]);
      var before := [h] + rest;
      if Failure(f, h).Some? {
        assert before[..0] == [] && before[..1] == [h];
      } else {
        i := RunFilterFails(f, msgs[1..]);
        if RunFilter(f, msgs[1..]).Failed? {
          assert before[..i + 1] == [h] + rest[..i] && before[..i + 2] == [h] + rest[..i + 1];
          i := i + 1;
        }
      }
    }
  }

  function Draws(f: Filter, shown: seq<Msg>): nat {
    if shown == [] then 0 else f.draws(shown[0]) + Draws(f, shown[1..])
  }

  /** All the filters, one after the other, over one datagram; the first failure stops the dump. */
  datatype Round = Round(shown: seq<seq<Msg>>, draws: nat, done: bool, failed: Option<int>)

  function RunFilters(filters: seq<Filter>, msgs: seq<Msg>): (r: Round)
    ensures |r.shown| <= |filters| && (r.failed.None? ==> |r.shown| == |filters|)
    decreases |filters|
  {
    if filters == [] then Round([], 0, false, None)
    else
      var p := RunFilter(filters[0], msgs);
      if p.Failed? then Round([p.shown], Draws(filters[0], p.shown), false, Some(p.code))
      else
        var rest := RunFilters(filters[1..], msgs);
        Round([p.shown] + rest.shown, Draws(filters[0], p.shown) + rest.draws, p.Done? || rest.done, rest.failed)
  }

  lemma {:induction false} RunFiltersShow(filters: seq<Filter>, msgs: seq<Msg>)
    requires RunFilters(filters, msgs).failed.None?
    ensures forall j :: 0 <= j < |filters| ==> RunFilters(filters, msgs).shown[j] == BeforeDone(msgs)
    ensures filters != [] ==> (RunFilters(filters, msgs).done <==> HasDone(msgs))
    decreases |filters|
  {
    if filters != [] {
      RunFilterShows(filters[0], msgs);
      RunFiltersShow(filters[1..], msgs);
      assert RunFilters([], msgs).done == false;
    }
  }

  predicate Clean(filters: seq<Filter>, msgs: seq<Msg>) {
    forall j :: 0 <= j < |filters| ==> CleanFor(filters[j], msgs)
  }

  /** Filter `j` is the first with a message in `msgs` that fails it; message `i` is its first such. */
  predicate BreaksAt(filters: seq<Filter>, msgs: seq<Msg>, j: nat, i: nat, code: int) {
    j < |filters| && FirstBad(filters[j], msgs, i, code) && Clean(filters[..j], msgs)
  }

  /** The filters before `j` are shown everything, filter `j` what leads to its failure, the others nothing. */
  predicate ShownUntil(shown: seq<seq<Msg>>, msgs: seq<Msg>, j: nat, i: nat) {
    |shown| == j + 1 && shown[j] == ShownTo(msgs, i) && forall k :: 0 <= k < j ==> shown[k] == msgs
  }

  /** A datagram fails exactly at the first failing message before DONE of the first filter that has one. */
  lemma {:induction false} RunFiltersFail(filters: seq<Filter>, msgs: seq<Msg>) returns (j: nat, i: nat)
    ensures var r, before := RunFilters(filters, msgs), BeforeDone(msgs);
            if r.failed.Some? then BreaksAt(filters, before, j, i, r.failed.value) && ShownUntil(r.shown, before, j, i)
            else Clean(filters, before)
    decreases |filters|
  {
    hide FirstBad, CleanFor, ShownTo, RunFilter, BeforeDone, Draws;
    j, i := 0, 0;
    if filters != [] {
      var f, rest, before := filters[0], filters[1..], BeforeDone(msgs);
      i := RunFilterFails(f, msgs);
      if !RunFilter(f, msgs).Failed? {
        RunFilterShows(f, msgs);
        j, i := RunFiltersFail(rest, msgs);
        if RunFilters(rest, msgs).failed.Some? {
          assert filters[..j + 1] == [f] + rest[..j];
          j := j + 1;
        } else {
          assert filters == [f] + rest;
        }
      }
    }
  }

  // -------------------------------------------------------------------- talk

  datatype TalkResult = Answer(m: Msg) | Acknowledged(m: Msg) | Refused(m: Msg)

  /** What `rtnl_talk` makes of the matching messages of a datagram; `None` to read on. */
  function TalkRead(msgs: seq<Msg>, want: bool): (r: Option<TalkResult>)
    ensures r.Some? ==> r.value.m in msgs
  {
    if msgs == [] then None
    else
      var h := msgs[0];
      if h.typ == NLMSG_ERROR then
        if h.error == Some(0) then Some(if want then Answer(h) else Acknowledged(h)) else Some(Refused(h))
      else if want then Some(Answer(h))
      else TalkRead(msgs[1..], want)
  }

  /** A message ends a talk: any one if an answer is wanted, otherwise an error message. */
  predicate Decides(m: Msg, want: bool) { want || m.typ == 2 }

  predicate Undecided(msgs: seq<Msg>, want: bool) { forall i :: 0 <= i < |msgs| ==> !Decides(msgs[i], want) }

  /** What a talk may make of a message: an error message with code 0 is no error. */
  predicate Fitting(result: TalkResult, want: bool) {
    match result
    case Answer(m) => want && (m.typ == NLMSG_ERROR ==> m.error == Some(0))
    case Acknowledged(m) => !want && m.typ == NLMSG_ERROR && m.error == Some(0)
    case Refused(m) => m.typ == NLMSG_ERROR && m.error != Some(0)
  }

  /** The talk ends at message `i`, the first that can end it, with what that says. */
  predicate EndsAt(msgs: seq<Msg>, want: bool, result: TalkResult, i: nat) {
    i < |msgs| && msgs[i] == result.m && Decides(result.m, want) && Undecided(msgs[..i], want) && Fitting(result, want)
  }

  /** A talk reads on exactly past messages that cannot end it. */
  lemma {:induction false} TalkReadExact(msgs: seq<Msg>, want: bool) returns (i: nat)
    ensures var r := TalkRead(msgs, want);
            if r.Some? then EndsAt(msgs, want, r.value, i) else Undecided(msgs, want)
  {
    i := 0;
    if msgs != [] && !Decides(msgs[0], want) {
      i := TalkReadExact(msgs[1..], want);
      if TalkRead(msgs[1..], want).Some? {
        assert msgs[..i + 1] == [msgs[0]] + msgs[1..][..i];
        i := i + 1;
      }
    }
  }

  // --------------------------------------------------------- runs of a handle

  /** What the handle is in the middle of; `id` numbers the request by its sequence draw. */
  datatype Mode =
    | Idle
    | Talking(id: nat, want: bool, log: seq<Datagram>)
    | Dumping(id: nat, filters: seq<Filter>, log: seq<Datagram>, shown: seq<seq<Msg>>)

  /** A handle: `seq` is `base` advanced by the number of draws, `dump` is the dump's own number. */
  datatype Handle = Handle(base: nat, drawn: nat, dump: nat, pid: nat, queue: seq<Datagram>, mode: Mode)

  datatype Event = Arrive(d: Datagram) | StartTalk(want: bool) | StartDump(filters: seq<Filter>) | Receive

  datatype Report =
    | Silent
    | TalkEnds(id: nat, want: bool, log: seq<Datagram>, result: TalkResult)
    | DumpEnds(id: nat, filters: seq<Filter>, log: seq<Datagram>, shown: seq<seq<Msg>>)
    | DumpFails(id: nat, filters: seq<Filter>, log: seq<Datagram>, code: int)

  /** The kernel answers requests that were made, with their own sequence number; others may send anything. */
  ghost predicate Honest(d: Datagram, base: nat, drawn: nat, pid: nat) {
    d.sender == 0 ==>
      forall i :: 0 <= i < |d.msgs| && d.msgs[i].pid == pid ==>
        1 <= d.msgs[i].reply <= drawn && d.msgs[i].seqno == Seqno(base, d.msgs[i].reply)
  }

  /** What the filters have been shown after one more datagram, which may not have come to all of them. */
  function Append(a: seq<seq<Msg>>, b: seq<seq<Msg>>): (r: seq<seq<Msg>>)
    requires |b| <= |a|
    ensures |r| == |a| && forall j :: 0 <= j < |r| ==> r[j] == if j < |b| then a[j] + b[j] else a[j]
  {
    seq(|a|, j requires 0 <= j < |a| => if j < |b| then a[j] + b[j] else a[j])
  }

  function Idled(h: Handle): Handle { h.(mode := Idle) }

  /** The event can happen, and the 32-bit counter does not come round again. */
  ghost predicate Enabled(h: Handle, e: Event) {
    match e
    case Arrive(d) => Honest(d, h.base, h.drawn, h.pid)
    case StartTalk(_) => h.mode.Idle? && h.drawn + 1 < U32_MOD
    case StartDump(filters) => h.mode.Idle? && h.drawn + 1 < U32_MOD && filters != []
    case Receive =>
      !h.mode.Idle? && h.queue != [] &&
      (h.mode.Dumping? ==>
         |h.mode.shown| == |h.mode.filters| &&
         h.drawn + RunFilters(h.mode.filters, Mine(h.queue[0], h.pid, h.dump)).draws < U32_MOD)
  }

  /** One step: a datagram arrives, a request is sent, or the head of the queue is read. */
  function Step(h: Handle, e: Event): (r: (Handle, Report))
    requires Enabled(h, e)
    ensures r.0.base == h.base && r.0.pid == h.pid && h.drawn <= r.0.drawn
  {
    match e
    case Arrive(d) => (h.(queue := h.queue + [d]), Silent)
    case StartTalk(want) => (h.(drawn := h.drawn + 1, mode := Talking(h.drawn + 1, want, [])), Silent)
    case StartDump(filters) =>
      (h.(drawn := h.drawn + 1, dump := Seqno(h.base, h.drawn + 1),
          mode := Dumping(h.drawn + 1, filters, [], seq(|filters|, _ => []))), Silent)
    case Receive =>
      var h1 := h.(queue := h.queue[1..]);
      match h.mode
      case Talking(id, want, log) =>
        var r, log' := TalkRead(Mine(h.queue[0], h.pid, Seqno(h.base, id)), want), log + [h.queue[0]];
        if r.Some? then (Idled(h1), TalkEnds(id, want, log', r.value))
        else (h1.(mode := Talking(id, want, log')), Silent)
      case Dumping(id, filters, log, shown) =>
        var r := RunFilters(filters, Mine(h.queue[0], h.pid, h.dump));
        var h2, log' := h1.(drawn := h.drawn + r.draws), log + [h.queue[0]];
        if r.failed.Some? then (Idled(h2), DumpFails(id, filters, log', r.failed.value))
        else
          var shown' := Append(shown, r.shown);
          if r.done then (Idled(h2), DumpEnds(id, filters, log', shown'))
          else (h2.(mode := Dumping(id, filters, log', shown')), Silent)
  }

  // --------------------------------------------------------------- the invariant

  ghost predicate AllHonest(ds: seq<Datagram>, base: nat, drawn: nat, pid: nat) {
    forall i :: 0 <= i < |ds| ==> Honest(ds[i], base, drawn, pid)
  }

  ghost predicate Inv(h: Handle) {
    h.drawn < U32_MOD && AllHonest(h.queue, h.base, h.drawn, h.pid) &&
    match h.mode
    case Idle => true
    case Talking(id, want, log) =>
      1 <= id <= h.drawn && AllHonest(log, h.base, h.drawn, h.pid) &&
      Undecided(AllMine(log, h.pid, Seqno(h.base, id)), want)
    case Dumping(id, filters, log, shown) =>
      1 <= id <= h.drawn && h.dump == Seqno(h.base, id) && AllHonest(log, h.base, h.drawn, h.pid) &&
      filters != [] && |shown| == |filters| && !HasDone(AllMine(log, h.pid, h.dump)) &&
      Clean(filters, AllMine(log, h.pid, h.dump)) &&
      forall j :: 0 <= j < |shown| ==> shown[j] == AllMine(log, h.pid, h.dump)
  }

  lemma HonestLater(d: Datagram, base: nat, drawn: nat, drawn': nat, pid: nat)
    requires Honest(d, base, drawn, pid) && drawn <= drawn'
    ensures Honest(d, base, drawn', pid)
  {}

  lemma BeforeDoneAll(msgs: seq<Msg>)
    ensures BeforeDone(msgs) == msgs <==> !HasDone(msgs)
  {
    if msgs != [] {
      HasDoneCons(msgs);
      BeforeDoneAll(msgs[1..]);
      assert msgs == [msgs[0]] + msgs[1..];
    }
  }

  lemma {:induction false} BeforeDoneAppend(a: seq<Msg>, b: seq<Msg>)
    requires !HasDone(a)
    ensures BeforeDone(a + b) == a + BeforeDone(b) && (HasDone(a + b) <==> HasDone(b))
  {
    hide HasDone;
    if a == [] {
      assert a + b == b;
    } else {
      HasDoneCons(a);
      HasDoneCons(a + b);
      assert (a + b)[1..] == a[1..] + b;
      BeforeDoneAppend(a[1..], b);
      assert [a[0]] + (a[1..] + BeforeDone(b)) == a + BeforeDone(b);
    }
  }

  lemma AllMineSnoc(log: seq<Datagram>, d: Datagram, pid: nat, seqno: nat)
    ensures AllMine(log + [d], pid, seqno) == AllMine(log, pid, seqno) + Mine(d, pid, seqno)
  {
    assert (log + [d])[..|log|] == log;
  }

  /** Reading one datagram of a dump that does not fail. */
  lemma {:induction false} DumpReads(h: Handle)
    requires Inv(h) && h.mode.Dumping? && h.queue != []
    requires RunFilters(h.mode.filters, Mine(h.queue[0], h.pid, h.dump)).failed.None?
    ensures var d, mode := h.queue[0], h.mode;
            var r, all := RunFilters(mode.filters, Mine(d, h.pid, h.dump)), AllMine(mode.log + [d], h.pid, h.dump);
            |r.shown| == |mode.shown| && (r.done <==> HasDone(all)) && Clean(mode.filters, BeforeDone(all)) &&
            forall j :: 0 <= j < |mode.shown| ==> mode.shown[j] + r.shown[j] == BeforeDone(all)
  {
    hide Mine, HasDone, RunFilters, BeforeDone, Clean, Seqno;
    var d, mode := h.queue[0], h.mode;
    var mine := Mine(d, h.pid, h.dump);
    RunFiltersShow(mode.filters, mine);
    var _, _ := RunFiltersFail(mode.filters, mine);
    AllMineSnoc(mode.log, d, h.pid, h.dump);
    BeforeDoneAppend(AllMine(mode.log, h.pid, h.dump), mine);
    CleanAppend(mode.filters, AllMine(mode.log, h.pid, h.dump), BeforeDone(mine));
  }

  lemma CleanAppend(filters: seq<Filter>, a: seq<Msg>, b: seq<Msg>)
    ensures Clean(filters, a + b) <==> Clean(filters, a) && Clean(filters, b)
  {
    forall j | 0 <= j < |filters|
      ensures CleanFor(filters[j], a + b) <==> CleanFor(filters[j], a) && CleanFor(filters[j], b)
    {
      CleanForAppend(filters[j], a, b);
    }
    hide CleanFor;
  }

  lemma CleanForAppend(f: Filter, a: seq<Msg>, b: seq<Msg>)
    ensures CleanFor(f, a + b) <==> CleanFor(f, a) && CleanFor(f, b)
  {
    if CleanFor(f, a + b) {
      forall i | 0 <= i < |a| ensures Failure(f, a[i]).None? { assert (a + b)[i] == a[i]; }
      forall i | 0 <= i < |b| ensures Failure(f, b[i]).None? { assert (a + b)[|a| + i] == b[i]; }
    }
  }

  lemma {:induction false} QueueStaysHonest(h: Handle, e: Event)
    requires Inv(h) && Enabled(h, e)
    ensures var h' := Step(h, e).0; AllHonest(h'.queue, h'.base, h'.drawn, h'.pid)
  {
    hide RunFilters, Mine, Honest;
    var h' := Step(h, e).0;
    forall i | 0 <= i < |h'.queue| ensures Honest(h'.queue[i], h'.base, h'.drawn, h'.pid) {
      var d := h'.queue[i];
      assert d in h.queue || (e.Arrive? && d == e.d);
      HonestLater(d, h.base, h.drawn, h'.drawn, h.pid);
    }
  }

  lemma {:induction false} DumpStaysInv(h: Handle)
    requires Inv(h) && h.mode.Dumping? && Enabled(h, Receive)
    ensures Inv(Step(h, Receive).0)
  {
    QueueStaysHonest(h, Receive);
    hide RunFilters, Mine, Honest, HasDone, Seqno, Clean;
    var h' := Step(h, Receive).0;
    if h'.mode.Dumping? {
      var log', all := h.mode.log + [h.queue[0]], AllMine(h.mode.log + [h.queue[0]], h.pid, h.dump);
      DumpReads(h);
      BeforeDoneAll(all);
      hide AllMine, BeforeDone, Append;
      forall i | 0 <= i < |log'| ensures Honest(log'[i], h'.base, h'.drawn, h'.pid) {
        HonestLater(if i < |h.mode.log| then h.mode.log[i] else h.queue[0], h.base, h.drawn, h'.drawn, h.pid);
      }
    }
  }

  lemma {:induction false} TalkStaysInv(h: Handle)
    requires Inv(h) && h.mode.Talking? && Enabled(h, Receive)
    ensures Inv(Step(h, Receive).0)
  {
    QueueStaysHonest(h, Receive);
    hide Mine, Honest, TalkRead, Seqno;
    var d, seqno := h.queue[0], Seqno(h.base, h.mode.id);
    var mine := Mine(d, h.pid, seqno);
    AllMineSnoc(h.mode.log, d, h.pid, seqno);
    var _ := TalkReadExact(mine, h.mode.want);
    hide AllMine;
  }

  /** Every step keeps the invariant. */
  lemma {:induction false} StepKeepsInv(h: Handle, e: Event)
    requires Inv(h) && Enabled(h, e)
    ensures Inv(Step(h, e).0)
  {
    if e.Receive? && h.mode.Dumping? {
      DumpStaysInv(h);
    } else if e.Receive? {
      TalkStaysInv(h);
    } else {
      QueueStaysHonest(h, e);
      hide Mine, Honest;
    }
  }

  // ------------------------------------------------------ whose replies they are

  /** The messages of a datagram that answer request `id`. */
  function Replies(msgs: seq<Msg>, pid: nat, id: nat): seq<Msg> {
    if msgs == [] then []
    else (if msgs[0].pid == pid && msgs[0].reply == id then [msgs[0]] else []) + Replies(msgs[1..], pid, id)
  }

  function AllReplies(ds: seq<Datagram>, pid: nat, id: nat): seq<Msg> {
    if ds == [] then []
    else
      var d := ds[|ds| - 1];
      AllReplies(ds[..|ds| - 1], pid, id) + (if d.sender == 0 then Replies(d.msgs, pid, id) else [])
  }

  /** Two requests of one run never share a sequence number. */
  lemma SeqnoInjective(base: nat, j: nat, k: nat)
    requires 1 <= j < U32_MOD && 1 <= k < U32_MOD && Seqno(base, j) == Seqno(base, k)
    ensures j == k
  {
    var a, b := (base + j) / U32_MOD, (base + k) / U32_MOD;
    assert base + j == U32_MOD * a + Seqno(base, j) && base + k == U32_MOD * b + Seqno(base, k);
    assert j - k == U32_MOD * (a - b);
  }

  /** Selecting by sequence number selects exactly the replies to that request. */
  lemma {:induction false} AddressedReplies(msgs: seq<Msg>, base: nat, drawn: nat, pid: nat, id: nat)
    requires Honest(Datagram(0, msgs), base, drawn, pid) && 1 <= id <= drawn < U32_MOD
    ensures Addressed(msgs, pid, Seqno(base, id)) == Replies(msgs, pid, id)
  {
    if msgs != [] {
      assert Honest(Datagram(0, msgs[1..]), base, drawn, pid) by {
        assert forall i :: 0 <= i < |msgs[1..]| ==> msgs[1..][i] == msgs[i + 1];
      }
      AddressedReplies(msgs[1..], base, drawn, pid, id);
      var m := msgs[0];
      assert Datagram(0, msgs).msgs[0] == m;
      if m.pid == pid && m.seqno == Seqno(base, id) { SeqnoInjective(base, m.reply, id); }
    }
  }

  lemma {:induction false} MineReplies(ds: seq<Datagram>, base: nat, drawn: nat, pid: nat, id: nat)
    requires AllHonest(ds, base, drawn, pid) && 1 <= id <= drawn < U32_MOD
    ensures AllMine(ds, pid, Seqno(base, id)) == AllReplies(ds, pid, id)
    decreases |ds|
  {
    if ds != [] {
      var d := ds[|ds| - 1];
      MineReplies(ds[..|ds| - 1], base, drawn, pid, id);
      if d.sender == 0 {
        assert d == Datagram(0, d.msgs);
        AddressedReplies(d.msgs, base, drawn, pid, id);
      }
    }
  }

  /** What a report promises its caller. */
  ghost predicate Sound(r: Report, base: nat, pid: nat) {
    match r
    case Silent => true
    case TalkEnds(id, want, log, result) =>
      result.m.reply == id && result.m.pid == pid && result.m.seqno == Seqno(base, id) &&
      exists i: nat :: EndsAt(AllReplies(log, pid, id), want, result, i)
    case DumpEnds(id, filters, log, shown) =>
      var replies := AllReplies(log, pid, id);
      HasDone(replies) && Clean(filters, BeforeDone(replies)) && ShowsAll(shown, filters, BeforeDone(replies))
    case DumpFails(id, filters, log, code) =>
      log != [] &&
      var before, last := AllReplies(log[..|log| - 1], pid, id), AllReplies(log[|log| - 1..], pid, id);
      !HasDone(before) && Clean(filters, before) &&
      exists j: nat, i: nat :: BreaksAt(filters, BeforeDone(last), j, i, code)
  }

  lemma {:induction false} StepSound(h: Handle, e: Event)
    requires Inv(h) && Enabled(h, e)
    ensures Sound(Step(h, e).1, h.base, h.pid)
  {
    if e.Receive? && h.mode.Talking? {
      TalkSound(h);
    } else if e.Receive? && h.mode.Dumping? {
      DumpSound(h);
    }
  }

  lemma {:induction false} TalkSound(h: Handle)
    requires Inv(h) && h.mode.Talking? && h.queue != []
    ensures Sound(Step(h, Receive).1, h.base, h.pid)
  {
    hide TalkRead, Mine, Honest, Seqno, EndsAt, AllReplies, AllMine, Undecided;
    var d, id, want := h.queue[0], h.mode.id, h.mode.want;
    var mine := Mine(d, h.pid, Seqno(h.base, id));
    var r := TalkRead(mine, want);
    if r.Some? {
      TalkReplyOf(h, d, r.value.m);
      TalkLog(h, d);
      var i := TalkReadExact(mine, want);
      var log' := h.mode.log + [d];
      EndsLater(AllMine(h.mode.log, h.pid, Seqno(h.base, id)), mine, want, r.value, i);
      assert EndsAt(AllReplies(log', h.pid, id), want, r.value, |AllMine(h.mode.log, h.pid, Seqno(h.base, id))| + i);
    }
  }

  /** A message that a talk may end with answers its request. */
  lemma TalkReplyOf(h: Handle, d: Datagram, m: Msg)
    requires Inv(h) && h.mode.Talking? && Honest(d, h.base, h.drawn, h.pid)
    requires m in Mine(d, h.pid, Seqno(h.base, h.mode.id))
    ensures m.reply == h.mode.id && m.pid == h.pid && m.seqno == Seqno(h.base, h.mode.id)
  {
    hide Seqno;
    var i :| 0 <= i < |d.msgs| && d.msgs[i] == m;
    SeqnoInjective(h.base, m.reply, h.mode.id);
  }

  /** The replies to a talk after one more datagram. */
  lemma TalkLog(h: Handle, d: Datagram)
    requires Inv(h) && h.mode.Talking? && Honest(d, h.base, h.drawn, h.pid)
    ensures var id, log := h.mode.id, h.mode.log;
            AllReplies(log + [d], h.pid, id) ==
            AllMine(log, h.pid, Seqno(h.base, id)) + Mine(d, h.pid, Seqno(h.base, id))
  {
    hide Honest, Seqno, Mine;
    var log' := h.mode.log + [d];
    AllMineSnoc(h.mode.log, d, h.pid, Seqno(h.base, h.mode.id));
    MineReplies(log', h.base, h.drawn, h.pid, h.mode.id);
  }

  lemma EndsLater(a: seq<Msg>, b: seq<Msg>, want: bool, result: TalkResult, i: nat)
    requires Undecided(a, want) && EndsAt(b, want, result, i)
    ensures EndsAt(a + b, want, result, |a| + i)
  {
    assert (a + b)[..|a| + i] == a + b[..i];
  }

  lemma {:induction false} DumpSound(h: Handle)
    requires Inv(h) && h.mode.Dumping? && Enabled(h, Receive)
    ensures Sound(Step(h, Receive).1, h.base, h.pid)
  {
    hide RunFilters, Mine, HasDone, Seqno, Honest, Clean, BreaksAt, AllMine, AllReplies, BeforeDone;
    var d, mode := h.queue[0], h.mode;
    if RunFilters(mode.filters, Mine(d, h.pid, h.dump)).failed.None? {
      DumpReads(h);
      MineReplies(mode.log + [d], h.base, h.drawn, h.pid, mode.id);
    } else {
      DumpBreaks(h);
    }
  }

  /** Reading one datagram of a dump that fails. */
  lemma {:induction false} DumpBreaks(h: Handle)
    requires Inv(h) && h.mode.Dumping? && h.queue != []
    requires RunFilters(h.mode.filters, Mine(h.queue[0], h.pid, h.dump)).failed.Some?
    ensures var d, mode := h.queue[0], h.mode;
            var code := RunFilters(mode.filters, Mine(d, h.pid, h.dump)).failed.value;
            Sound(DumpFails(mode.id, mode.filters, mode.log + [d], code), h.base, h.pid)
  {
    hide RunFilters, Mine, HasDone, Seqno, Honest, Clean, BreaksAt, AllMine, AllReplies, BeforeDone;
    var d, mode := h.queue[0], h.mode;
    var j, i := RunFiltersFail(mode.filters, Mine(d, h.pid, h.dump));
    MineReplies(mode.log, h.base, h.drawn, h.pid, mode.id);
    MineReplies([d], h.base, h.drawn, h.pid, mode.id);
    MineOfOne(d, h.pid, h.dump);
    var log' := mode.log + [d];
    assert log'[..|log'| - 1] == mode.log && log'[|log'| - 1..] == [d];
    var code := RunFilters(mode.filters, Mine(d, h.pid, h.dump)).failed.value;
    assert BreaksAt(mode.filters, BeforeDone(AllReplies([d], h.pid, mode.id)), j, i, code);
  }

  lemma MineOfOne(d: Datagram, pid: nat, seqno: nat)
    ensures AllMine([d], pid, seqno) == Mine(d, pid, seqno)
  {
    assert [] + Mine(d, pid, seqno) == Mine(d, pid, seqno) && [d][..0] == [];
  }

  // ------------------------------------------------------------------ whole runs

  ghost predicate Possible(h: Handle, events: seq<Event>)
    decreases |events|
  {
    events == [] || (Enabled(h, events[0]) && Possible(Step(h, events[0]).0, events[1..]))
  }

  ghost function Reports(h: Handle, events: seq<Event>): seq<Report>
    requires Possible(h, events)
    decreases |events|
  {
    if events == [] then []
    else [Step(h, events[0]).1] + Reports(Step(h, events[0]).0, events[1..])
  }

  /**
   * Over every run of talks, dumps and deletes inside dumps with fewer than 2^32 draws: a talk ends
   * on a reply to its own request, and a dump that succeeds has shown every filter exactly the
   * replies to its own request before DONE, in order.
   */
  lemma {:induction false} RunsAreSound(h: Handle, events: seq<Event>)
    requires Inv(h) && Possible(h, events)
    ensures forall i :: 0 <= i < |Reports(h, events)| ==> Sound(Reports(h, events)[i], h.base, h.pid)
    decreases |events|
  {
    hide Step, Sound, Inv, Enabled;
    if events != [] {
      StepKeepsInv(h, events[0]);
      StepSound(h, events[0]);
      RunsAreSound(Step(h, events[0]).0, events[1..]);
    }
  }

  /** A freshly opened handle starts every run. */
  lemma OpenedIsInv(base: nat, pid: nat)
    ensures Inv(Handle(base, 0, 0, pid, [], Idle))
  {}

  // ------------------------------------------------------------ the inner loops

  lemma TalkCons(h: Msg, rest: seq<Msg>, want: bool)
    ensures TalkRead([h] + rest, want) ==
            if h.typ == NLMSG_ERROR then
              if h.error == Some(0) then Some(if want then Answer(h) else Acknowledged(h)) else Some(Refused(h))
            else if want then Some(Answer(h))
            else TalkRead(rest, want)
  {
    assert ([h] + rest)[1..] == rest;
  }

  /** What a talk makes of the messages from `i` on. */
  ghost function Unread(d: Datagram, i: nat, pid: nat, seqno: nat, want: bool): Option<TalkResult>
    requires i <= |d.msgs|
  {
    TalkRead(if d.sender != 0 then [] else Addressed(d.msgs[i..], pid, seqno), want)
  }

  lemma UnreadEnds(d: Datagram, pid: nat, seqno: nat, want: bool)
    ensures Unread(d, 0, pid, seqno, want) == TalkRead(Mine(d, pid, seqno), want)
    ensures Unread(d, |d.msgs|, pid, seqno, want) == None
  {
    assert d.msgs[0..] == d.msgs && d.msgs[|d.msgs|..] == [];
  }

  lemma UnreadNext(d: Datagram, i: nat, pid: nat, seqno: nat, want: bool)
    requires i < |d.msgs|
    ensures var h := d.msgs[i];
            Unread(d, i, pid, seqno, want) ==
            if d.sender != 0 || h.pid != pid || h.seqno != seqno then Unread(d, i + 1, pid, seqno, want)
            else if h.typ == NLMSG_ERROR then
              if h.error == Some(0) then Some(if want then Answer(h) else Acknowledged(h)) else Some(Refused(h))
            else if want then Some(Answer(h))
            else Unread(d, i + 1, pid, seqno, want)
  {
    hide Addressed, TalkRead;
    AddressedNext(d, i, pid, seqno);
    TalkCons(d.msgs[i], Addressed(d.msgs[i + 1..], pid, seqno), want);
  }

  /** The loop of `rtnl_talk` over one datagram, skipping what is not addressed to this call. */
  method ReadTalk(d: Datagram, pid: nat, seqno: nat, want: bool) returns (r: Option<TalkResult>)
    ensures r == TalkRead(Mine(d, pid, seqno), want)
  {
    hide *;
    var i := 0;
    UnreadEnds(d, pid, seqno, want);
    while i < |d.msgs|
      invariant 0 <= i <= |d.msgs|
      invariant TalkRead(Mine(d, pid, seqno), want) == Unread(d, i, pid, seqno, want)
    {
      var h := d.msgs[i];
      UnreadNext(d, i, pid, seqno, want);
      if d.sender == 0 && h.pid == pid && h.seqno == seqno {
        if h.typ == NLMSG_ERROR {
          if h.error == Some(0) { return Some(if want then Answer(h) else Acknowledged(h)); }
          return Some(Refused(h));
        }
        if want { return Some(Answer(h)); }
      }
      i := i + 1;
    }
    r := None;
  }

  function Extend(shown: seq<Msg>, p: Pass): Pass { p.(shown := shown + p.shown) }

  /** A filter's pass over the messages from `i` on, after it was shown `shown`. */
  ghost function Pending(d: Datagram, i: nat, pid: nat, dump: nat, f: Filter, shown: seq<Msg>): Pass
    requires i <= |d.msgs|
  {
    Extend(shown, RunFilter(f, if d.sender != 0 then [] else Addressed(d.msgs[i..], pid, dump)))
  }

  lemma PendingEnds(d: Datagram, pid: nat, dump: nat, f: Filter, shown: seq<Msg>)
    ensures Pending(d, 0, pid, dump, f, []) == RunFilter(f, Mine(d, pid, dump))
    ensures Pending(d, |d.msgs|, pid, dump, f, shown) == More(shown)
  {
    var p := RunFilter(f, Mine(d, pid, dump));
    assert d.msgs[0..] == d.msgs && [] + p.shown == p.shown;
    assert shown + [] == shown && d.msgs[|d.msgs|..] == [];
  }

  lemma AddressedNext(d: Datagram, i: nat, pid: nat, dump: nat)
    requires i < |d.msgs|
    ensures var h, rest := d.msgs[i], Addressed(d.msgs[i + 1..], pid, dump);
            Addressed(d.msgs[i..], pid, dump) == if h.pid == pid && h.seqno == dump then [h] + rest else rest
  {
    var h, rest := d.msgs[i], Addressed(d.msgs[i + 1..], pid, dump);
    assert d.msgs[i..][1..] == d.msgs[i + 1..] && [] + rest == rest;
  }

  lemma ExtendCons(f: Filter, h: Msg, rest: seq<Msg>, shown: seq<Msg>)
    ensures Extend(shown, RunFilter(f, [h] + rest)) ==
            if h.typ == NLMSG_DONE then Done(shown)
            else if h.typ == NLMSG_ERROR then Failed(shown, -1)
            else if f.verdict(h) < 0 then Failed(shown + [h], f.verdict(h))
            else Extend(shown + [h], RunFilter(f, rest))
  {
    var tail := RunFilter(f, rest).shown;
    assert ([h] + rest)[1..] == rest && shown + [] == shown;
    assert shown + ([h] + tail) == shown + [h] + tail;
  }

  /** One message: skipped, or shown to the filter with its effect on the pass. */
  lemma PendingNext(d: Datagram, i: nat, pid: nat, dump: nat, f: Filter, shown: seq<Msg>)
    requires i < |d.msgs|
    ensures var h := d.msgs[i];
            Pending(d, i, pid, dump, f, shown) ==
            if d.sender != 0 || h.pid != pid || h.seqno != dump then Pending(d, i + 1, pid, dump, f, shown)
            else if h.typ == NLMSG_DONE then Done(shown)
            else if h.typ == NLMSG_ERROR then Failed(shown, -1)
            else if f.verdict(h) < 0 then Failed(shown + [h], f.verdict(h))
            else Pending(d, i + 1, pid, dump, f, shown + [h])
  {
    hide RunFilter, Addressed, Extend;
    AddressedNext(d, i, pid, dump);
    ExtendCons(f, d.msgs[i], Addressed(d.msgs[i + 1..], pid, dump), shown);
  }

  /** One filter's loop over a datagram in `rtnl_dump_filter_l`. */
  method ReadForFilter(d: Datagram, pid: nat, dump: nat, f: Filter) returns (p: Pass)
    ensures p == RunFilter(f, Mine(d, pid, dump))
  {
    hide *;
    var shown: seq<Msg> := [];
    var i := 0;
    PendingEnds(d, pid, dump, f, shown);
    while i < |d.msgs|
      invariant 0 <= i <= |d.msgs|
      invariant RunFilter(f, Mine(d, pid, dump)) == Pending(d, i, pid, dump, f, shown)
    {
      var h := d.msgs[i];
      PendingNext(d, i, pid, dump, f, shown);
      if d.sender == 0 && h.pid == pid && h.seqno == dump {
        if h.typ == NLMSG_DONE { return Done(shown); }
        if h.typ == NLMSG_ERROR { return Failed(shown, -1); }
        var err := f.verdict(h);
        if err < 0 { return Failed(shown + [h], err); }
        shown := shown + [h];
      }
      i := i + 1;
    }
    PendingEnds(d, pid, dump, f, shown);
    p := More(shown);
  }

  function Join(shown: seq<seq<Msg>>, draws: nat, done: bool, r: Round): Round {
    Round(shown + r.shown, draws + r.draws, done || r.done, r.failed)
  }

  /** One more filter: it ends the round, or the others follow. */
  lemma JoinNext(filters: seq<Filter>, j: nat, msgs: seq<Msg>, shown: seq<seq<Msg>>, draws: nat, done: bool)
    requires j < |filters|
    ensures var p := RunFilter(filters[j], msgs);
            var n := draws + Draws(filters[j], p.shown);
            Join(shown, draws, done, RunFilters(filters[j..], msgs)) ==
            if p.Failed? then Round(shown + [p.shown], n, done, Some(p.code))
            else Join(shown + [p.shown], n, done || p.Done?, RunFilters(filters[j + 1..], msgs))
  {
    hide RunFilter, Draws;
    var p := RunFilter(filters[j], msgs);
    var rest := RunFilters(filters[j + 1..], msgs).shown;
    assert filters[j..][1..] == filters[j + 1..];
    assert shown + ([p.shown] + rest) == shown + [p.shown] + rest;
  }

  lemma JoinEnds(filters: seq<Filter>, msgs: seq<Msg>, shown: seq<seq<Msg>>, draws: nat, done: bool)
    ensures Join([], 0, false, RunFilters(filters[0..], msgs)) == RunFilters(filters, msgs)
    ensures Join(shown, draws, done, RunFilters(filters[|filters|..], msgs)) == Round(shown, draws, done, None)
  {
    var r := RunFilters(filters, msgs);
    assert filters[0..] == filters && [] + r.shown == r.shown;
    assert filters[|filters|..] == [] && shown + [] == shown;
  }

  /** The handle's two sequence fields, as the calls update them. */
  class Rtnl {
    var seqno: nat
    var dump: nat
    const pid: nat

    constructor (start: nat, pid: nat)
      ensures seqno == start && dump == 0 && this.pid == pid
    {
      seqno, dump := start, 0;
      this.pid := pid;
    }

    /**
     * One datagram through every filter. The filters draw numbers from `seqno` as they go; the
     * messages are still matched against the unchanged `dump`.
     */
    method ReadDatagram(d: Datagram, filters: seq<Filter>) returns (r: Round)
      requires seqno < U32_MOD
      modifies this`seqno
      ensures r == RunFilters(filters, Mine(d, pid, dump))
      ensures seqno == Seqno(old(seqno), r.draws)
    {
      hide *;
      var shown: seq<seq<Msg>> := [];
      var draws, done, j := 0, false, 0;
      ghost var msgs := Mine(d, pid, dump);
      JoinEnds(filters, msgs, [], 0, false);
      SeqnoTwice(seqno, 0, 0);
      while j < |filters|
        invariant 0 <= j <= |filters| && seqno == Seqno(old(seqno), draws)
        invariant RunFilters(filters, msgs) == Join(shown, draws, done, RunFilters(filters[j..], msgs))
      {
        JoinNext(filters, j, msgs, shown, draws, done);
        var p := ReadForFilter(d, pid, dump, filters[j]);
        var n := Draws(filters[j], p.shown);
        SeqnoTwice(old(seqno), draws, n);
        shown, draws, seqno := shown + [p.shown], draws + n, Seqno(seqno, n);
        if p.Failed? { return Round(shown, draws, done, Some(p.code)); }
        done := done || p.Done?;
        j := j + 1;
      }
      JoinEnds(filters, msgs, shown, draws, done);
      r := Round(shown, draws, done, None);
    }

    /** `rtnl_talk` on the datagrams that come in: it ends at the first message to it that can end it. */
    method Talk(incoming: seq<Datagram>, want: bool) returns (request: nat, result: Option<TalkResult>, read: nat)
      modifies this`seqno
      ensures seqno == request == Seqno(old(seqno), 1) && read <= |incoming|
      ensures var all := AllMine(incoming, pid, request);
              match result
              case None => read == |incoming| && Undecided(all, want)
              case Some(end) =>
                exists i: nat :: i < |AllMine(incoming[..read], pid, request)| && EndsAt(all, want, end, i)
    {
      hide *;
      seqno := Seqno(seqno, 1);
      request, read := seqno, 0;
      NothingDecided(pid, request, want);
      assert incoming[..0] == [];
      while read < |incoming|
        invariant 0 <= read <= |incoming| && seqno == request == Seqno(old(seqno), 1)
        invariant Undecided(AllMine(incoming[..read], pid, request), want)
      {
        var d := incoming[read];
        ghost var before := incoming[..read];
        assert incoming[..read + 1] == before + [d];
        result := ReadTalk(d, pid, request, want);
        read := read + 1;
        TalkGoesOn(before, d, pid, request, want);
        if result.Some? {
          ghost var i := TalkEndsIn(incoming, read, pid, request, want, result.value);
          return;
        }
      }
      assert incoming[..read] == incoming;
      result := None;
    }

    /**
     * `rtnl_dump_request` and `rtnl_dump_filter_l` on the datagrams that come in. The request carries
     * the next number, and the replies are the messages with that number, however many numbers the
     * filters draw meanwhile. The dump ends well exactly if a DONE comes and nothing before it fails.
     */
    method RunDump(incoming: seq<Datagram>, filters: seq<Filter>)
      returns (request: nat, result: DumpResult, shown: seq<seq<Msg>>, read: nat)
      requires filters != []
      modifies this
      ensures request == Seqno(old(seqno), 1) && dump == request && |shown| == |filters|
      ensures seqno == Seqno(old(seqno), 1 + AllDraws(filters, shown))
      ensures DumpRead(incoming, pid, request, filters, result, shown, read)
      ensures var all := AllMine(incoming, pid, request);
              (result.Broken? <==> !Clean(filters, BeforeDone(all))) &&
              (result.Complete? <==> HasDone(all) && Clean(filters, BeforeDone(all)))
    {
      hide AllMine, Mine, HasDone, BeforeDone, Clean, RunFilters, BreaksAt, ShownBroken, ShowsAll, AllDraws, Append;
      hide Quiet, Seqno;
      SeqnoTwice(seqno, 1, 0);
      seqno := Seqno(seqno, 1);
      dump := seqno;
      request, read, shown := dump, 0, seq(|filters|, _ => []);
      NothingYet(pid, dump, filters, shown);
      assert incoming[..0] == [];
      while read < |incoming|
        invariant 0 <= read <= |incoming| && dump == request == Seqno(old(seqno), 1) && |shown| == |filters|
        invariant seqno < U32_MOD && seqno == Seqno(old(seqno), 1 + AllDraws(filters, shown))
        invariant Quiet(incoming[..read], pid, request, filters, shown)
      {
        var d := incoming[read];
        ghost var before, was := incoming[..read], shown;
        assert incoming[..read + 1] == before + [d];
        var r := ReadDatagram(d, filters);
        read := read + 1;
        RoundDraws(filters, Mine(d, pid, dump), was);
        SeqnoTwice(old(seqno), 1 + AllDraws(filters, was), r.draws);
        shown := Append(shown, r.shown);
        if r.failed.Some? {
          DatagramFails(before, d, pid, request, filters, was);
          result := Broken(r.failed.value);
          ReadDecides(incoming, pid, request, filters, result, shown, read);
          return;
        }
        DatagramShows(before, d, pid, request, filters, was);
        if r.done {
          result := Complete;
          ReadDecides(incoming, pid, request, filters, result, shown, read);
          return;
        }
      }
      assert incoming[..read] == incoming;
      result := Starved;
      ReadDecides(incoming, pid, request, filters, result, shown, read);
    }
  }

  lemma NothingDecided(pid: nat, seqno: nat, want: bool)
    ensures Undecided(AllMine([], pid, seqno), want)
  {
  }

  /** One more datagram of a talk that has not ended. */
  lemma TalkGoesOn(log: seq<Datagram>, d: Datagram, pid: nat, seqno: nat, want: bool)
    requires Undecided(AllMine(log, pid, seqno), want)
    ensures var r, mine := TalkRead(Mine(d, pid, seqno), want), AllMine(log + [d], pid, seqno);
            if r.Some? then exists i: nat :: EndsAt(mine, want, r.value, i) else Undecided(mine, want)
  {
    hide TalkRead, Mine, EndsAt, AllMine;
    var before, mine := AllMine(log, pid, seqno), Mine(d, pid, seqno);
    AllMineSnoc(log, d, pid, seqno);
    var i := TalkReadExact(mine, want);
    var r := TalkRead(mine, want);
    if r.Some? {
      EndsLater(before, mine, want, r.value, i);
      assert EndsAt(before + mine, want, r.value, |before| + i);
    }
  }

  lemma TalkEndsIn(incoming: seq<Datagram>, read: nat, pid: nat, seqno: nat, want: bool, end: TalkResult)
    returns (i: nat)
    requires read <= |incoming| && exists i: nat :: EndsAt(AllMine(incoming[..read], pid, seqno), want, end, i)
    ensures i < |AllMine(incoming[..read], pid, seqno)| && EndsAt(AllMine(incoming, pid, seqno), want, end, i)
  {
    hide AllMine;
    var mine := AllMine(incoming[..read], pid, seqno);
    i :| EndsAt(mine, want, end, i);
    AllMineSplit(incoming, read, pid, seqno);
    assert AllMine(incoming, pid, seqno)[..i] == mine[..i];
  }

  datatype DumpResult = Complete | Starved | Broken(code: int)

  predicate ShowsAll(shown: seq<seq<Msg>>, filters: seq<Filter>, msgs: seq<Msg>) {
    |shown| == |filters| && forall j :: 0 <= j < |shown| ==> shown[j] == msgs
  }

  /** No DONE and no failure among the replies so far, and every filter has been shown all of them. */
  predicate Quiet(log: seq<Datagram>, pid: nat, request: nat, filters: seq<Filter>, shown: seq<seq<Msg>>) {
    var mine := AllMine(log, pid, request);
    !HasDone(mine) && Clean(filters, mine) && ShowsAll(shown, filters, mine)
  }

  /** What was read when a dump ends, and what its filters were shown. */
  ghost predicate DumpRead(
    incoming: seq<Datagram>, pid: nat, request: nat, filters: seq<Filter>, result: DumpResult, shown: seq<seq<Msg>>,
    read: nat)
  {
    read <= |incoming| &&
    match result
    case Starved => read == |incoming| && Quiet(incoming, pid, request, filters, shown)
    case Complete =>
      var mine := AllMine(incoming[..read], pid, request);
      read > 0 && !HasDone(AllMine(incoming[..read - 1], pid, request)) && HasDone(mine) &&
      Clean(filters, BeforeDone(mine)) && ShowsAll(shown, filters, BeforeDone(mine))
    case Broken(code) =>
      read > 0 &&
      var before := AllMine(incoming[..read - 1], pid, request);
      var last := BeforeDone(Mine(incoming[read - 1], pid, request));
      !HasDone(before) && Clean(filters, before) &&
      exists j: nat, i: nat :: BreaksAt(filters, last, j, i, code) && ShownBroken(shown, filters, before, last, j, i)
  }

  /** What the filters were shown in all when filter `j` failed at message `i` of the last datagram. */
  predicate ShownBroken(
    shown: seq<seq<Msg>>, filters: seq<Filter>, before: seq<Msg>, last: seq<Msg>, j: nat, i: nat)
  {
    |shown| == |filters| &&
    forall k :: 0 <= k < |shown| ==>
      shown[k] == if k < j then before + last else if k == j then before + ShownTo(last, i) else before
  }

  /** The numbers all filters draw for what they are shown. */
  function AllDraws(filters: seq<Filter>, shown: seq<seq<Msg>>): nat
    requires |shown| <= |filters|
  {
    if shown == [] then 0 else Draws(filters[0], shown[0]) + AllDraws(filters[1..], shown[1..])
  }

  lemma {:induction false} DrawsAppend(f: Filter, a: seq<Msg>, b: seq<Msg>)
    ensures Draws(f, a + b) == Draws(f, a) + Draws(f, b)
  {
    if a == [] {
      assert a + b == b;
    } else {
      assert (a + b)[1..] == a[1..] + b;
      DrawsAppend(f, a[1..], b);
    }
  }

  lemma {:induction false} AllDrawsAppend(filters: seq<Filter>, a: seq<seq<Msg>>, b: seq<seq<Msg>>)
    requires |b| <= |a| <= |filters|
    ensures AllDraws(filters, Append(a, b)) == AllDraws(filters, a) + AllDraws(filters, b)
    decreases |a|
  {
    hide Draws;
    if a != [] {
      var b' := if b == [] then [] else b[1..];
      assert Append(a, b)[1..] == Append(a[1..], b');
      AllDrawsAppend(filters[1..], a[1..], b');
      if b != [] { DrawsAppend(filters[0], a[0], b[0]); }
    }
  }

  lemma {:induction false} RoundDraws(filters: seq<Filter>, msgs: seq<Msg>, was: seq<seq<Msg>>)
    requires |was| == |filters|
    ensures var r := RunFilters(filters, msgs);
            r.draws == AllDraws(filters, r.shown) &&
            AllDraws(filters, Append(was, r.shown)) == AllDraws(filters, was) + r.draws
  {
    hide Draws, Append, RunFilter;
    RoundDrawsOnly(filters, msgs);
    AllDrawsAppend(filters, was, RunFilters(filters, msgs).shown);
  }

  lemma {:induction false} RoundDrawsOnly(filters: seq<Filter>, msgs: seq<Msg>)
    ensures RunFilters(filters, msgs).draws == AllDraws(filters, RunFilters(filters, msgs).shown)
    decreases |filters|
  {
    hide Draws, RunFilter;
    if filters != [] {
      RoundDrawsOnly(filters[1..], msgs);
      var p := RunFilter(filters[0], msgs);
      var rest := RunFilters(filters[1..], msgs).shown;
      assert ([p.shown] + rest)[1..] == rest && [p.shown][1..] == [];
      assert AllDraws(filters[1..], []) == 0;
    }
  }

  /** A datagram that fails, after a quiet log. */
  lemma DatagramFails(
    log: seq<Datagram>, d: Datagram, pid: nat, request: nat, filters: seq<Filter>, was: seq<seq<Msg>>)
    requires Quiet(log, pid, request, filters, was) && RunFilters(filters, Mine(d, pid, request)).failed.Some?
    ensures var r := RunFilters(filters, Mine(d, pid, request));
            var before, last := AllMine(log, pid, request), BeforeDone(Mine(d, pid, request));
            !HasDone(before) && Clean(filters, before) &&
            exists j: nat, i: nat :: BreaksAt(filters, last, j, i, r.failed.value) &&
                                     ShownBroken(Append(was, r.shown), filters, before, last, j, i)
  {
    hide HasDone, Clean, AllMine, Mine, BeforeDone, RunFilters, ShownTo, BreaksAt;
    var mine := Mine(d, pid, request);
    var r := RunFilters(filters, mine);
    var j, i := RunFiltersFail(filters, mine);
    assert ShownBroken(Append(was, r.shown), filters, AllMine(log, pid, request), BeforeDone(mine), j, i);
  }

  /** A datagram that does not fail, after a quiet log. */
  lemma DatagramShows(
    log: seq<Datagram>, d: Datagram, pid: nat, request: nat, filters: seq<Filter>, was: seq<seq<Msg>>)
    requires filters != [] && Quiet(log, pid, request, filters, was)
    requires RunFilters(filters, Mine(d, pid, request)).failed.None?
    ensures !HasDone(AllMine(log, pid, request))
    ensures var r, mine := RunFilters(filters, Mine(d, pid, request)), AllMine(log + [d], pid, request);
            if r.done then
              HasDone(mine) && Clean(filters, BeforeDone(mine)) &&
              ShowsAll(Append(was, r.shown), filters, BeforeDone(mine))
            else Quiet(log + [d], pid, request, filters, Append(was, r.shown))
  {
    hide HasDone, Clean, AllMine, Mine, BeforeDone, RunFilters;
    var before, mine := AllMine(log, pid, request), Mine(d, pid, request);
    RunFiltersShow(filters, mine);
    var _, _ := RunFiltersFail(filters, mine);
    AllMineSnoc(log, d, pid, request);
    BeforeDoneAppend(before, mine);
    BeforeDoneAll(before + mine);
    CleanAppend(filters, before, BeforeDone(mine));
  }

  lemma {:induction false} AllMineSplit(ds: seq<Datagram>, n: nat, pid: nat, seqno: nat)
    requires n <= |ds|
    ensures AllMine(ds, pid, seqno) == AllMine(ds[..n], pid, seqno) + AllMine(ds[n..], pid, seqno)
    decreases |ds|
  {
    hide Mine;
    if n == |ds| {
      assert ds[..n] == ds && ds[n..] == [];
    } else {
      var m := |ds| - 1;
      AllMineSplit(ds[..m], n, pid, seqno);
      assert ds[..m][..n] == ds[..n] && ds[n..][..m - n] == ds[..m][n..];
    }
  }

  /** Messages before a DONE stay before it, whatever follows. */
  lemma {:induction false} BeforeDoneMore(a: seq<Msg>, b: seq<Msg>)
    ensures BeforeDone(a) <= BeforeDone(a + b) && (HasDone(a) ==> HasDone(a + b) && BeforeDone(a + b) == BeforeDone(a))
  {
    hide HasDone;
    if a == [] {
      NoDone();
    } else {
      HasDoneCons(a);
      HasDoneCons(a + b);
      assert (a + b)[1..] == a[1..] + b;
      BeforeDoneMore(a[1..], b);
    }
  }

  lemma NoDone()
    ensures !HasDone([])
  {
  }

  lemma CleanPrefix(filters: seq<Filter>, a: seq<Msg>, b: seq<Msg>)
    requires a <= b && Clean(filters, b)
    ensures Clean(filters, a)
  {
    hide Clean;
    assert b == a + b[|a|..];
    CleanAppend(filters, a, b[|a|..]);
  }

  lemma BreaksNotClean(filters: seq<Filter>, msgs: seq<Msg>, j: nat, i: nat, code: int)
    requires BreaksAt(filters, msgs, j, i, code)
    ensures !Clean(filters, msgs)
  {
    assert !CleanFor(filters[j], msgs);
  }

  /** What was read decides the dump, whatever else comes in. */
  lemma ReadDecides(
    incoming: seq<Datagram>, pid: nat, request: nat, filters: seq<Filter>, result: DumpResult, shown: seq<seq<Msg>>,
    read: nat)
    requires DumpRead(incoming, pid, request, filters, result, shown, read)
    ensures var all := AllMine(incoming, pid, request);
            (result.Broken? <==> !Clean(filters, BeforeDone(all))) &&
            (result.Complete? <==> HasDone(all) && Clean(filters, BeforeDone(all)))
  {
    hide HasDone, Clean, AllMine, Mine, BeforeDone, ShownTo, BreaksAt, ShownBroken, ShowsAll;
    var all, mine := AllMine(incoming, pid, request), AllMine(incoming[..read], pid, request);
    AllMineSplit(incoming, read, pid, request);
    BeforeDoneMore(mine, AllMine(incoming[read..], pid, request));
    BeforeDoneAll(all);
    if result.Broken? {
      var d := incoming[read - 1];
      var before, last := AllMine(incoming[..read - 1], pid, request), BeforeDone(Mine(d, pid, request));
      var j: nat, i: nat :| BreaksAt(filters, last, j, i, result.code) &&
                            ShownBroken(shown, filters, before, last, j, i);
      BreaksNotClean(filters, last, j, i, result.code);
      assert incoming[..read] == incoming[..read - 1] + [d];
      AllMineSnoc(incoming[..read - 1], d, pid, request);
      BeforeDoneAppend(before, Mine(d, pid, request));
      CleanAppend(filters, before, last);
      if Clean(filters, BeforeDone(all)) { CleanPrefix(filters, BeforeDone(mine), BeforeDone(all)); }
    }
  }

  lemma NothingYet(pid: nat, seqno: nat, filters: seq<Filter>, shown: seq<seq<Msg>>)
    requires |shown| == |filters| && forall j :: 0 <= j < |shown| ==> shown[j] == []
    ensures Quiet([], pid, seqno, filters, shown) && AllDraws(filters, shown) == 0
  {
    NoDrawsYet(filters, shown);
  }

  lemma {:induction false} NoDrawsYet(filters: seq<Filter>, shown: seq<seq<Msg>>)
    requires |shown| <= |filters| && forall j :: 0 <= j < |shown| ==> shown[j] == []
    ensures AllDraws(filters, shown) == 0
    decreases |shown|
  {
    if shown != [] { NoDrawsYet(filters[1..], shown[1..]); }
  }
}
