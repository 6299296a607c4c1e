/** The neighbour database of arpd.c: kernel requests and ARP packets as steps over it. */
module Arpd {
  import opened Wire
  import opened Attributes
  import opened NeighWire

  /** `struct dbkey`. */
  datatype Key = Key(iface: u32, addr: u32)

  type Db = map<Key, seq<byte>>

  datatype Config = Config(interfaces: seq<u32>, probing: int, timeout: int)

  /** One wake-up of the daemon. `now` is the clock, `sent` says whether a probe would get out. */
  datatype Event =
    | Kernel(m: NeighMsg, now: u32, sent: bool)
    | Packet(iface: u32, halen: byte, p: seq<byte>)

  /** The database after a step, and what the kernel was told. */
  datatype Outcome = Outcome(db: Db, answer: Option<seq<byte>>)

  // ------------------------------------------------------------ negative entries

  /** A byte of an entry; nothing below depends on the value past its end. */
  function ByteAt(e: seq<byte>, i: nat): byte { if i < |e| then e[i] else 0 }

  predicate IsNeg(e: seq<byte>) { ByteAt(e, 0) == 0xFF }

  function NegTime(e: seq<byte>): (t: u32) {
    ByteAt(e, 2) as int * 0x100_0000 + ByteAt(e, 3) as int * 0x1_0000 +
    ByteAt(e, 4) as int * 0x100 + ByteAt(e, 5) as int
  }

  function NegCount(e: seq<byte>): byte { ByteAt(e, 1) }

  /** `NEG_VALID`: an unsigned age against the timeout converted to unsigned. */
  predicate NegValid(e: seq<byte>, now: u32, timeout: int) {
    (now - NegTime(e)) % U32_MOD < timeout % U32_MOD
  }

  /** `prepare_neg_entry`: marker, probe count, big-endian stamp. */
  function NegEntry(stamp: u32): seq<byte> {
    [0xFF, 0, stamp / 0x100_0000 % 256, stamp / 0x1_0000 % 256, stamp / 0x100 % 256, stamp % 256]
  }

  /** `NEG_CNT(x)++` on an 8-bit field. */
  function Counted(e: seq<byte>): seq<byte> {
    if |e| > 1 then e[1 := (e[1] as int + 1) % 256] else e
  }

  /** The clock `age` seconds after `stamp`. */
  function Later(stamp: u32, age: nat): u32 { (stamp + age) % U32_MOD }

  lemma StampDigits(s: u32)
    ensures s == s / 0x100_0000 % 256 * 0x100_0000 + s / 0x1_0000 % 256 * 0x1_0000 + s / 0x100 % 256 * 0x100 + s % 256
  {
    var a, b := s / 0x100, s / 0x1_0000;
    assert b == a / 0x100 && s / 0x100_0000 == b / 0x100;
  }

  /** The stamp is read back as written, also after the count was bumped. */
  lemma NegEntryFields(stamp: u32)
    ensures IsNeg(NegEntry(stamp)) && NegCount(NegEntry(stamp)) == 0
    ensures NegTime(NegEntry(stamp)) == stamp == NegTime(Counted(NegEntry(stamp)))
  {
    StampDigits(stamp);
  }

  lemma AgeIs(stamp: u32, age: nat)
    requires age < U32_MOD
    ensures (Later(stamp, age) - stamp) % U32_MOD == age
  {
  }

  lemma LaterIs(stamp: u32, now: u32)
    ensures Later(stamp, (now - stamp) % U32_MOD) == now
  {
  }

  /** A negative entry is valid for exactly the `timeout` seconds after its stamp, across clock wraps. */
  lemma NegEntryExpires(stamp: u32, now: u32, timeout: u32)
    ensures NegValid(NegEntry(stamp), now, timeout) <==> exists age :: 0 <= age < timeout && Later(stamp, age) == now
  {
    hide NegEntry, NegTime, Later, Counted;
    NegEntryFields(stamp);
    LaterIs(stamp, now);
    forall age | 0 <= age < timeout && Later(stamp, age) == now ensures age == (now - stamp) % U32_MOD {
      AgeIs(stamp, age);
    }
  }

  // ------------------------------------------------------------ the handlers

  predicate Watched(c: Config, iface: u32) { c.interfaces == [] || iface in c.interfaces }

  /** The header tests that let a message through to the database. */
  predicate Concerns(c: Config, m: NeighMsg) {
    (m.typ == RTM_GETNEIGH || m.typ == RTM_NEWNEIGH) && m.family == AF_INET && Watched(c, m.iface) && m.flags == 0 &&
    m.kind == RTN_UNICAST && m.state != 0 && m.state != NUD_NOARP && m.dst.Some?
  }

  /** `memcmp(a, stored, |stored|) == 0`. */
  predicate SameBytes(a: seq<byte>, stored: seq<byte>) {
    forall i :: 0 <= i < |stored| ==> ByteAt(a, i) == stored[i]
  }

  /**
   * A learned address replaces the entry unless a positive one compares equal. The comparison is as
   * long as the entry, so it may go on into what lies `behind` a shorter address.
   */
  function Store(db: Db, k: Key, a: seq<byte>, behind: seq<byte>): Db {
    if k in db && !IsNeg(db[k]) && SameBytes(a + behind, db[k]) then db else db[k := a]
  }

  /** A request of the kernel for an address. */
  function Request(c: Config, db: Db, k: Key, probe: bool, now: u32, sent: bool): Outcome {
    if probe then Outcome(db - {k}, None)
    else if k in db && !IsNeg(db[k]) then Outcome(db, Some(db[k]))
    else if k in db && NegValid(db[k], now, c.timeout) && NegCount(db[k]) < c.probing && sent
    then Outcome(db[k := Counted(db[k])], None)
    else Outcome(db, None)
  }

  function Kern(c: Config, db: Db, m: NeighMsg, now: u32, sent: bool): Outcome {
    if !Concerns(c, m) then Outcome(db, None)
    else
      var k := Key(m.iface, m.dst.value);
      if m.typ == RTM_GETNEIGH then
        if !m.request || (!Has(m.state, NUD_PROBE) && !Has(m.state, NUD_INCOMPLETE)) then Outcome(db, None)
        else Request(c, db, k, Has(m.state, NUD_PROBE), now, sent)
      else if m.request then Outcome(db, None)
      else if Has(m.state, NUD_FAILED) then
        if k !in db || !IsNeg(db[k]) || !NegValid(db[k], now, c.timeout)
        then Outcome(db[k := NegEntry(now)], None) else Outcome(db, None)
      else if m.lladdr.Some? then Outcome(Store(db, k, m.lladdr.value, m.behind), None)
      else Outcome(db, None)
  }

  const ARP_HEADER := 8

  /** Both hardware and both IP addresses fit the packet. */
  predicate Framed(p: seq<byte>) { |p| >= ARP_HEADER && ARP_HEADER + 8 + 2 * p[4] as int <= |p| }

  /** The sanity tests of `get_arp_pkt` on the raw packet. */
  predicate Sane(halen: byte, p: seq<byte>) {
    Framed(p) && p[6] == 0 && (p[7] == 1 || p[7] == 2) && p[5] == 4 && p[2] == 8 && p[3] == 0 && p[4] == halen
  }

  function Hardware(p: seq<byte>): seq<byte>
    requires Framed(p)
  {
    p[ARP_HEADER..ARP_HEADER + p[4] as int]
  }

  /** The rest of the packet after the sender's hardware address. */
  function Behind(p: seq<byte>): seq<byte>
    requires Framed(p)
  {
    p[ARP_HEADER + p[4] as int..]
  }

  function Sender(p: seq<byte>): u32
    requires Framed(p)
  {
    Get32(p, ARP_HEADER + p[4] as int)
  }

  function Arp(c: Config, db: Db, iface: u32, halen: byte, p: seq<byte>): Db {
    if !Watched(c, iface) || !Sane(halen, p) || Sender(p) == 0 then db
    else Store(db, Key(iface, Sender(p)), Hardware(p), Behind(p))
  }

  function Step(c: Config, db: Db, e: Event): Outcome {
    match e
    case Kernel(m, now, sent) => Kern(c, db, m, now, sent)
    case Packet(iface, halen, p) => Outcome(Arp(c, db, iface, halen, p), None)
  }

  function Run(c: Config, db: Db, es: seq<Event>): Db {
    if es == [] then db else Step(c, Run(c, db, es[..|es| - 1]), es[|es| - 1]).db
  }

  // ------------------------------------------------------------ what events mean

  /** What an event says about a key, read off the event alone. */
  datatype Meaning = Learn(k: Key, a: seq<byte>) | Forget(k: Key) | Ask(k: Key) | Nothing

  function Says(c: Config, e: Event): Meaning {
    match e
    case Packet(iface, halen, p) =>
      if Watched(c, iface) && Sane(halen, p) && Sender(p) != 0 then Learn(Key(iface, Sender(p)), Hardware(p))
      else Nothing
    case Kernel(m, _, _) =>
      if !Concerns(c, m) then Nothing
      else
        var k := Key(m.iface, m.dst.value);
        if m.typ == RTM_GETNEIGH && m.request && Has(m.state, NUD_PROBE) then Forget(k)
        else if m.typ == RTM_GETNEIGH && m.request && Has(m.state, NUD_INCOMPLETE) then Ask(k)
        else if m.typ == RTM_NEWNEIGH && !m.request && Has(m.state, NUD_FAILED) then Forget(k)
        else if m.typ == RTM_NEWNEIGH && !m.request && m.lladdr.Some? then Learn(k, m.lladdr.value)
        else Nothing
  }

  /** An ARP packet of IPv4 addresses from its parts: sender and target, each with hardware and IP address. */
  function ArpPacket(
    hw: seq<byte>, op: byte, sha: seq<byte>, spa: seq<byte>, tha: seq<byte>, tpa: seq<byte>, tail: seq<byte>)
    : seq<byte>
    requires |sha| < 256
  {
    hw + [8, 0] + [|sha|, 4] + [0, op] + sha + spa + tha + tpa + tail
  }

  /** Requests and replies of a sender with an address teach that sender's hardware address, others nothing. */
  lemma PacketTeaches(
    c: Config, iface: u32, hw: seq<byte>, op: byte, sha: seq<byte>, spa: seq<byte>, tha: seq<byte>, tpa: seq<byte>,
    tail: seq<byte>)
    requires |hw| == 2 && |sha| == |tha| < 256 && |spa| == 4 == |tpa|
    ensures Says(c, Packet(iface, |sha|, ArpPacket(hw, op, sha, spa, tha, tpa, tail))) ==
            if Watched(c, iface) && (op == 1 || op == 2) && Get32(spa, 0) != 0
            then Learn(Key(iface, Get32(spa, 0)), sha) else Nothing
  {
    hide Watched;
    var p, n := ArpPacket(hw, op, sha, spa, tha, tpa, tail), |sha|;
    assert p[2] == 8 && p[3] == 0 && p[4] == n && p[5] == 4 && p[6] == 0 && p[7] == op;
    assert p[8..8 + n] == sha && |p| >= 16 + 2 * n;
    assert forall i :: 0 <= i < 4 ==> p[8 + n + i] == spa[i];
    hide ArpPacket;
    assert p[8 + n + 0] == spa[0] && p[8 + n + 1] == spa[1] && p[8 + n + 2] == spa[2] && p[8 + n + 3] == spa[3];
    assert Framed(p) && Sender(p) == Get32(spa, 0);
  }

  /** The memory a stored address is compared with is the packet from the sender's hardware address on. */
  lemma PacketMemory(p: seq<byte>)
    requires Framed(p)
    ensures Hardware(p) + Behind(p) == p[8..]
  {
  }

  /** Every packet that teaches something is of that form. */
  lemma PacketParts(c: Config, iface: u32, halen: byte, p: seq<byte>)
    returns (hw: seq<byte>, sha: seq<byte>, spa: seq<byte>, tha: seq<byte>, tpa: seq<byte>, tail: seq<byte>)
    requires Says(c, Packet(iface, halen, p)) != Nothing
    ensures |hw| == 2 && |sha| == |tha| == halen && |spa| == 4 == |tpa|
    ensures p == ArpPacket(hw, 1, sha, spa, tha, tpa, tail) || p == ArpPacket(hw, 2, sha, spa, tha, tpa, tail)
  {
    hide Sender, Hardware, Watched;
    var n := halen as int;
    hw, sha, spa := p[..2], p[8..8 + n], p[8 + n..12 + n];
    tha, tpa, tail := p[12 + n..12 + 2 * n], p[12 + 2 * n..16 + 2 * n], p[16 + 2 * n..];
    PacketJoins(p, n);
    assert p[2..4] == [8, 0] && p[4..6] == [halen, 4] && p[6..8] == [0, p[7]];
  }

  lemma PacketJoins(p: seq<byte>, n: nat)
    requires 16 + 2 * n <= |p|
    ensures p == p[..2] + p[2..4] + p[4..6] + p[6..8] + p[8..8 + n] + p[8 + n..12 + n] + p[12 + n..12 + 2 * n] +
                 p[12 + 2 * n..16 + 2 * n] + p[16 + 2 * n..]
  {
  }

  /** What a message of the kernel says, from the numbers in it. */
  function NeighSays(c: Config, f: Fields, dst: Option<seq<byte>>, lladdr: Option<seq<byte>>): Meaning
    requires dst.Some? ==> |dst.value| == 4
  {
    if f.family != 2 || !Watched(c, f.iface) || f.ndmFlags != 0 || f.kind != 1 || dst.None? then Nothing
    else if f.state == 0 || f.state == 0x40 then Nothing
    else
      var k := Key(f.iface, Get32(dst.value, 0));
      if f.typ == 30 && f.flags % 2 == 1 then
        if f.state / 16 % 2 == 1 then Forget(k) else if f.state % 2 == 1 then Ask(k) else Nothing
      else if f.typ == 28 && f.flags % 2 == 0 then
        if f.state / 32 % 2 == 1 then Forget(k) else if lladdr.Some? then Learn(k, lladdr.value) else Nothing
      else Nothing
  }

  /**
   * A message of the kernel by its parts: RTM_GETNEIGH (30) as a request invalidates the destination if
   * the state has NUD_PROBE (16), or asks for it if it has NUD_INCOMPLETE (1); RTM_NEWNEIGH (28) as a
   * notification invalidates it if the state has NUD_FAILED (32), or else teaches its address.
   */
  lemma KernelSays(
    c: Config, n: seq<byte>, f: Fields, attrs: seq<Attr>, dst: Option<seq<byte>>, lladdr: Option<seq<byte>>,
    now: u32, sent: bool)
    requires IsNeigh(n, f, attrs, dst, lladdr)
    ensures ReadNeigh(n).Some? && Says(c, Kernel(ReadNeigh(n).value, now, sent)) == NeighSays(c, f, dst, lladdr)
  {
    NeighRead(n, f, attrs, dst, lladdr);
    hide IsNeigh, ReadNeigh, Get32, Watched;
    assert f.state / 1 == f.state;
  }

  /** The positive entry of a key. */
  function View(db: Db, k: Key): Option<seq<byte>> { if k in db then Positive(db[k]) else None }

  function Positive(a: seq<byte>): Option<seq<byte>> { if IsNeg(a) then None else Some(a) }

  /** What is known of `k` after an event, from what was known before it. */
  function After(before: Option<seq<byte>>, said: Meaning, k: Key): Option<seq<byte>> {
    match said
    case Learn(k', a) => if k' == k then Positive(a) else before
    case Forget(k') => if k' == k then None else before
    case _ => before
  }

  /** The last address learned for `k` with no invalidation since. */
  function LastLearned(c: Config, db: Db, es: seq<Event>, k: Key): Option<seq<byte>> {
    if es == [] then View(db, k)
    else After(LastLearned(c, db, es[..|es| - 1], k), Says(c, es[|es| - 1]), k)
  }

  /** All positive entries have the length of a hardware address. */
  ghost predicate Uniform(db: Db, n: nat) { forall k :: k in db && !IsNeg(db[k]) ==> |db[k]| == n }

  /** Every address an event teaches has that length. */
  predicate Fits(c: Config, e: Event, n: nat) { Says(c, e).Learn? ==> |Says(c, e).a| == n }

  ghost predicate AllFit(c: Config, es: seq<Event>, n: nat) { forall i :: 0 <= i < |es| ==> Fits(c, es[i], n) }

  lemma StoreViews(db: Db, k: Key, a: seq<byte>, behind: seq<byte>, n: nat)
    requires Uniform(db, n) && |a| == n
    ensures Uniform(Store(db, k, a, behind), n)
    ensures forall k' :: View(Store(db, k, a, behind), k') == After(View(db, k'), Learn(k, a), k')
  {
    if k in db && !IsNeg(db[k]) && SameBytes(a + behind, db[k]) {
      assert a == db[k];
    }
  }

  /**
   * With addresses of mixed length, a learned one is lost exactly when the stored one is another, and
   * is what the memory at the new one starts with.
   */
  lemma StoreLearnsExact(db: Db, k: Key, a: seq<byte>, behind: seq<byte>)
    requires k in db ==> |db[k]| <= |a + behind|
    ensures k in Store(db, k, a, behind)
    ensures Store(db, k, a, behind)[k] == a <==> !(k in db && !IsNeg(db[k]) && db[k] != a && db[k] <= a + behind)
  {
    if k in db { assert SameBytes(a + behind, db[k]) <==> db[k] <= a + behind; }
  }

  /** A longer address of which the stored one is a proper prefix is not learned. */
  lemma PrefixKept(db: Db, k: Key, behind: seq<byte>)
    requires k in db && db[k] == [2, 0, 0, 0, 0, 1]
    ensures Store(db, k, [2, 0, 0, 0, 0, 1, 7, 7], behind) == db
  {
    var a: seq<byte> := [2, 0, 0, 0, 0, 1, 7, 7];
    assert forall i :: 0 <= i < 6 ==> (a + behind)[i] == db[k][i];
  }

  lemma RequestViews(c: Config, db: Db, k: Key, probe: bool, now: u32, sent: bool, n: nat)
    requires Uniform(db, n)
    ensures var r := Request(c, db, k, probe, now, sent);
            Uniform(r.db, n) && r.answer == (if probe then None else View(db, k)) &&
            forall k' :: View(r.db, k') == After(View(db, k'), if probe then Forget(k) else Ask(k), k')
  {
    if k in db && IsNeg(db[k]) { assert IsNeg(Counted(db[k])); }
  }

  lemma FailedViews(db: Db, k: Key, now: u32, n: nat)
    requires Uniform(db, n)
    ensures Uniform(db[k := NegEntry(now)], n)
    ensures forall k' :: View(db[k := NegEntry(now)], k') == After(View(db, k'), Forget(k), k')
  {
    assert IsNeg(NegEntry(now));
  }

  /** One step does to every key what the event says, and answers only a question with the positive entry. */
  lemma StepViews(c: Config, db: Db, e: Event, n: nat)
    requires Uniform(db, n) && Fits(c, e, n)
    ensures Uniform(Step(c, db, e).db, n)
    ensures forall k :: View(Step(c, db, e).db, k) == After(View(db, k), Says(c, e), k)
    ensures Step(c, db, e).answer == if Says(c, e).Ask? then View(db, Says(c, e).k) else None
  {
    hide Store, Request, NegEntry;
    match e
    case Packet(iface, halen, p) =>
      if Says(c, e).Learn? { StoreViews(db, Says(c, e).k, Says(c, e).a, Behind(p), n); }
    case Kernel(m, now, sent) =>
      if Concerns(c, m) {
        var k := Key(m.iface, m.dst.value);
        RequestViews(c, db, k, Has(m.state, NUD_PROBE), now, sent, n);
        FailedViews(db, k, now, n);
        if Says(c, e).Learn? { StoreViews(db, k, m.lladdr.value, m.behind, n); }
      }
  }

  lemma {:induction false} RunViews(c: Config, db: Db, es: seq<Event>, n: nat, k: Key)
    requires Uniform(db, n) && AllFit(c, es, n)
    ensures Uniform(Run(c, db, es), n) && View(Run(c, db, es), k) == LastLearned(c, db, es, k)
  {
    if es != [] {
      var m := |es| - 1;
      RunViews(c, db, es[..m], n, k);
      StepViews(c, Run(c, db, es[..m]), es[m], n);
    }
  }

  /**
   * After every run of events, an answer is given exactly to a question about a key whose last
   * learned address has not been invalidated since, and it is that address; entries that carry
   * the negative mark are never answered.
   */
  lemma AnswersExact(c: Config, db: Db, es: seq<Event>, e: Event, n: nat)
    requires Uniform(db, n) && AllFit(c, es, n) && Fits(c, e, n)
    ensures Step(c, Run(c, db, es), e).answer ==
            if Says(c, e).Ask? then LastLearned(c, db, es, Says(c, e).k) else None
    ensures forall a :: Step(c, Run(c, db, es), e).answer == Some(a) ==> !IsNeg(a) && |a| == n
  {
    hide Step, Says, Run, LastLearned;
    var k := if Says(c, e).Ask? then Says(c, e).k else Key(0, 0);
    RunViews(c, db, es, n, k);
    StepViews(c, Run(c, db, es), e, n);
  }

  // ------------------------------------------------------------ probe counts

  function Max(a: int, b: int): int { if a >= b then a else b }

  ghost predicate Bounded(c: Config, db: Db) {
    forall k :: k in db && IsNeg(db[k]) ==> NegCount(db[k]) <= Max(0, c.probing)
  }

  /** No learned address looks like a negative entry. */
  predicate Unmarked(c: Config, e: Event) { Says(c, e).Learn? ==> !IsNeg(Says(c, e).a) }

  lemma StepBounded(c: Config, db: Db, e: Event)
    requires Bounded(c, db) && Unmarked(c, e)
    ensures Bounded(c, Step(c, db, e).db)
  {
  }

  /** Whatever `active_probing` is, no negative entry counts more probes than it allows. */
  lemma {:induction false} CountsBounded(c: Config, db: Db, es: seq<Event>)
    requires Bounded(c, db) && forall i :: 0 <= i < |es| ==> Unmarked(c, es[i])
    ensures Bounded(c, Run(c, db, es))
  {
    if es != [] {
      CountsBounded(c, db, es[..|es| - 1]);
      StepBounded(c, Run(c, db, es[..|es| - 1]), es[|es| - 1]);
    }
  }

  /** A question about `k` while its entry is valid, and a probe gets out. */
  predicate Asks(c: Config, e: Event, k: Key, stamp: u32) {
    e.Kernel? && e.sent && Says(c, e) == Ask(k) && (e.now - stamp) % U32_MOD < c.timeout % U32_MOD
  }

  lemma CountedFields(e: seq<byte>)
    requires |e| == 6
    ensures var r := Counted(e);
            |r| == 6 && NegCount(r) == (NegCount(e) + 1) % 256 && NegTime(r) == NegTime(e) && IsNeg(r) == IsNeg(e)
  {
  }

  /** The negative entry of `k` from `stamp` after `n` such questions: each counts, up to the limit. */
  ghost predicate Probed(c: Config, db: Db, k: Key, stamp: u32, n: nat) {
    k in db && |db[k]| == 6 && IsNeg(db[k]) && NegTime(db[k]) == stamp &&
    NegCount(db[k]) == if n <= c.probing then n else Max(0, c.probing)
  }

  lemma ProbedFirst(c: Config, db: Db, k: Key, stamp: u32)
    requires k in db && db[k] == NegEntry(stamp)
    ensures Probed(c, db, k, stamp, 0)
  {
    NegEntryFields(stamp);
    hide NegTime;
  }

  lemma ProbedNext(c: Config, db: Db, k: Key, stamp: u32, n: nat, e: Event)
    requires c.probing <= 255 && Probed(c, db, k, stamp, n) && Asks(c, e, k, stamp)
    ensures Probed(c, Step(c, db, e).db, k, stamp, n + 1)
  {
    CountedFields(db[k]);
    hide NegTime, Counted, NegCount, Step, Says, IsNeg;
    AskCounts(c, db, k, e);
  }

  /** A failed host is probed once for every question, up to the limit, and then no more. */
  lemma {:induction false} ProbesThenSilence(c: Config, db: Db, k: Key, stamp: u32, es: seq<Event>)
    requires c.probing <= 255 && k in db && db[k] == NegEntry(stamp)
    requires forall i :: 0 <= i < |es| ==> Asks(c, es[i], k, stamp)
    ensures Probed(c, Run(c, db, es), k, stamp, |es|)
  {
    hide Probed, Asks, Step, NegEntry;
    if es == [] {
      ProbedFirst(c, db, k, stamp);
    } else {
      var n := |es| - 1;
      ProbesThenSilence(c, db, k, stamp, es[..n]);
      ProbedNext(c, Run(c, db, es[..n]), k, stamp, n, es[n]);
    }
  }

  lemma AskCounts(c: Config, db: Db, k: Key, e: Event)
    requires e.Kernel? && e.sent && Says(c, e) == Ask(k) && k in db && IsNeg(db[k])
    requires NegValid(db[k], e.now, c.timeout)
    ensures Step(c, db, e).db == if NegCount(db[k]) < c.probing then db[k := Counted(db[k])] else db
  {
    hide NegTime, Counted, NegValid;
  }

  // ------------------------------------------------------------ the daemon

  /** `handle_if`. */
  method HandleIf(interfaces: seq<u32>, iface: u32) returns (handled: bool)
    ensures handled <==> interfaces == [] || iface in interfaces
  {
    if |interfaces| == 0 { return true; }
    var i := 0;
    while i < |interfaces|
      invariant 0 <= i <= |interfaces| && iface !in interfaces[..i]
    {
      if interfaces[i] == iface { return true; }
      i := i + 1;
    }
    return false;
  }

  /** The daemon with its database; `log` records the events since it was opened as `start`. */
  class Daemon {
    const c: Config
    var db: Db
    ghost const start: Db
    ghost var log: seq<Event>

    constructor (c: Config, db: Db)
      ensures this.c == c && this.db == db == start && log == []
    {
      this.c, this.db, this.start, this.log := c, db, db, [];
    }

    /** The entries and the events so far carry addresses of `n` bytes, and the database is their outcome. */
    ghost predicate Valid(n: nat)
      reads this
    {
      db == Run(c, start, log) && Uniform(start, n) && AllFit(c, log, n)
    }

    ghost method Record(e: Event, before: Db, n: nat)
      requires before == Run(c, start, log) && Uniform(start, n) && AllFit(c, log, n) && Fits(c, e, n)
      requires db == Step(c, before, e).db
      modifies this`log
      ensures Valid(n) && log == old(log) + [e]
      ensures forall k :: View(db, k) == After(View(before, k), Says(c, e), k)
      ensures Step(c, before, e).answer ==
              if Says(c, e).Ask? then LastLearned(c, start, old(log), Says(c, e).k) else None
    {
      hide Step, Says, LastLearned, Uniform;
      AnswersExact(c, start, log, e, n);
      RunViews(c, start, log, n, Key(0, 0));
      StepViews(c, before, e, n);
      assert (log + [e])[..|log|] == log;
      log := log + [e];
    }

    /** The update of `do_one_request` on a known or unknown key. */
    method Update(m: NeighMsg, k: Key, now: u32, sent: bool) returns (answer: Option<seq<byte>>)
      requires Concerns(c, m) && k == Key(m.iface, m.dst.value)
      modifies this`db
      ensures Outcome(db, answer) == Kern(c, old(db), m, now, sent)
    {
      var dat := if k in db then Some(db[k]) else None;
      answer := None;
      if m.typ == RTM_GETNEIGH {
        if !m.request { return; }
        if !Has(m.state, NUD_PROBE) && !Has(m.state, NUD_INCOMPLETE) { return; }
        var acct := false;
        if Has(m.state, NUD_PROBE) {
          db := db - {k};
        } else {
          if dat.Some? && !IsNeg(dat.value) { answer := dat; return; }
          if dat.Some? && NegValid(dat.value, now, c.timeout) {
            if NegCount(dat.value) >= c.probing { return; }
            acct := true;
          }
        }
        if c.probing != 0 && sent && acct { db := db[k := Counted(dat.value)]; }
      } else {
        if m.request { return; }
        if Has(m.state, NUD_FAILED) {
          if dat.None? || !IsNeg(dat.value) || !NegValid(dat.value, now, c.timeout) { db := db[k := NegEntry(now)]; }
        } else if m.lladdr.Some? {
          if dat.Some? && !IsNeg(dat.value) && SameBytes(m.lladdr.value + m.behind, dat.value) { return; }
          db := db[k := m.lladdr.value];
        }
      }
    }

    /** What an event does to the positive entries. */
    twostate predicate Follows(e: Event)
      reads this
    {
      log == old(log) + [e] && forall k :: View(db, k) == After(old(View(db, k)), Says(c, e), k)
    }

    /** `do_one_request` on a message it could read: the last learned, still valid address is the answer. */
    method DoNeigh(m: NeighMsg, now: u32, sent: bool, ghost len: nat) returns (answer: Option<seq<byte>>)
      requires Valid(len) && Fits(c, Kernel(m, now, sent), len)
      modifies this
      ensures Valid(len) && Follows(Kernel(m, now, sent))
      ensures var said := Says(c, Kernel(m, now, sent));
              answer == if said.Ask? then LastLearned(c, start, old(log), said.k) else None
    {
      ghost var before := db;
      var watched := HandleIf(c.interfaces, m.iface);
      if (m.typ == RTM_GETNEIGH || m.typ == RTM_NEWNEIGH) && m.family == AF_INET && watched && m.flags == 0 &&
         m.kind == RTN_UNICAST && m.state != 0 && m.state != NUD_NOARP && m.dst.Some?
      {
        answer := Update(m, Key(m.iface, m.dst.value), now, sent);
      } else {
        answer := None;
      }
      Record(Kernel(m, now, sent), before, len);
    }

    /** `do_one_request`: an error for a message shorter than its headers, which changes nothing. */
    method DoOneRequest(n: seq<byte>, now: u32, sent: bool, ghost len: nat)
      returns (ok: bool, answer: Option<seq<byte>>)
      requires |n| >= 16 && Valid(len)
      requires ReadNeigh(n).Some? ==> Fits(c, Kernel(ReadNeigh(n).value, now, sent), len)
      modifies this
      ensures Valid(len) && ok == ReadNeigh(n).Some?
      ensures !ok ==> log == old(log) && db == old(db) && answer == None
      ensures ok ==>
                var e := Kernel(ReadNeigh(n).value, now, sent);
                Follows(e) && answer == if Says(c, e).Ask? then LastLearned(c, start, old(log), Says(c, e).k) else None
    {
      hide Says, LastLearned, Run, Uniform, ReadNeigh;
      var m := ReadNeigh(n);
      if m.None? { return false, None; }
      ok := true;
      answer := DoNeigh(m.value, now, sent, len);
    }

    /** `get_arp_pkt`. */
    method GetArpPkt(iface: u32, halen: byte, p: seq<byte>, ghost len: nat)
      requires Valid(len) && Fits(c, Packet(iface, halen, p), len)
      modifies this
      ensures Valid(len) && Follows(Packet(iface, halen, p))
    {
      ghost var before := db;
      var watched := HandleIf(c.interfaces, iface);
      if watched && Sane(halen, p) && Sender(p) != 0 {
        var k := Key(iface, Sender(p));
        if !(k in db && !IsNeg(db[k]) && SameBytes(Hardware(p) + Behind(p), db[k])) { db := db[k := Hardware(p)]; }
      }
      Record(Packet(iface, halen, p), before, len);
    }
  }
}
