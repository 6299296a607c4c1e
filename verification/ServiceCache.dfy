/** The service-name cache of `resolve_service` in ss.c, against the resolver it caches. */
module ServiceCache {
  import opened Wire

  const BUCKETS := 256

  /** `struct scache`; the protocol is the address of its name, 0 for none. */
  datatype Entry = Entry(port: int, proto: nat, name: Option<string>)

  /** What a call answers: a name, or the port in decimal. */
  datatype Answer = Named(name: string) | Numeric

  function Of(name: Option<string>): Answer { if name.Some? then Named(name.value) else Numeric }

  /** The first entry for a port and protocol. */
  function Find(es: seq<Entry>, port: int, proto: nat): Option<Entry> {
    if es == [] then None
    else if es[0].port == port && es[0].proto == proto then Some(es[0])
    else Find(es[1..], port, proto)
  }

  lemma {:induction false} FindIsIn(es: seq<Entry>, port: int, proto: nat)
    ensures var e := Find(es, port, proto); e.Some? ==> e.value in es && e.value.port == port && e.value.proto == proto
  {
    if es != [] { FindIsIn(es[1..], port, proto); }
  }

  /**
   * `heads` is the static array, `chains[h]` the allocated entries behind `heads[h]`. The resolver
   * `known` stands for the list of RPC services and the services database.
   */
  class Cache {
    const heads: array<Entry>
    const chains: array<seq<Entry>>
    ghost const known: (int, nat) -> Option<string>
    ghost var failed: bool

    /** An entry never carries a wrong name, and hides a known one only after an allocation failed. */
    ghost predicate Honest(e: Entry)
      reads this
    {
      e.port == 0 || e.name == known(e.port, e.proto) || (e.name == None && failed)
    }

    /** The static entries only ever remember failed lookups. */
    ghost predicate Valid()
      reads this, heads, chains
    {
      heads.Length == BUCKETS == chains.Length &&
      (forall h :: 0 <= h < BUCKETS ==> heads[h].name == None && Honest(heads[h])) &&
      (forall h, e :: 0 <= h < BUCKETS && e in chains[h] ==> Honest(e))
    }

    constructor (known: (int, nat) -> Option<string>)
      ensures Valid() && !failed && this.known == known && fresh(heads) && fresh(chains)
    {
      this.known, failed := known, false;
      heads := new Entry[BUCKETS](_ => Entry(0, 0, None));
      chains := new seq<Entry>[BUCKETS](_ => []);
    }

    /** The static entry of a bucket and those behind it. */
    ghost function Entries(h: nat): seq<Entry>
      reads heads, chains
      requires h < heads.Length && h < chains.Length
    {
      [heads[h]] + chains[h]
    }

    /** The search loop over the static entry and its chain. */
    method Search(h: nat, port: int, proto: nat) returns (e: Option<Entry>)
      requires Valid() && h < BUCKETS
      ensures e == Find(Entries(h), port, proto)
    {
      var all, i := [heads[h]] + chains[h], 0;
      while i < |all|
        invariant 0 <= i <= |all| && Find(all, port, proto) == Find(all[i..], port, proto)
      {
        if all[i].port == port && all[i].proto == proto { return Some(all[i]); }
        i := i + 1;
      }
      assert all[i..] == [];
      return None;
    }

    /**
     * The resolving branch of `resolve_service` for a port other than 0. `found` is what the resolver
     * answers now, `node` and `copy` say whether the two allocations succeed. A name is never wrong,
     * and as long as no allocation has failed the answer is the resolver's, whatever was asked before
     * and whichever bucket the hash picks. The key is cached afterwards unless its node could not be
     * allocated, no allocated entry is lost, and the other buckets stay as they are.
     */
    method Resolve(h: nat, port: int, proto: nat, found: Option<string>, node: bool, copy: bool) returns (a: Answer)
      requires Valid() && h < BUCKETS && port != 0 && found == known(port, proto)
      modifies this`failed, heads, chains
      ensures Valid() && (old(failed) ==> failed) && (failed ==> old(failed) || (found.Some? && !(node && copy)))
      ensures found.None? || node || old(Find(Entries(h), port, proto)).Some? ==> Find(Entries(h), port, proto).Some?
      ensures chains[h] == old(chains[h]) || (|chains[h]| > 0 && chains[h][1..] == old(chains[h]))
      ensures forall h' :: 0 <= h' < BUCKETS && h' != h ==> heads[h'] == old(heads[h']) && chains[h'] == old(chains[h'])
      ensures a.Named? ==> known(port, proto) == Some(a.name)
      ensures !failed ==> a == Of(known(port, proto))
    {
      var e := Search(h, port, proto);
      FindIsIn(Entries(h), port, proto);
      if e.Some? {
        assert Honest(e.value);
        return Of(e.value.name);
      }
      if found.None? {
        heads[h] := Entry(port, proto, None);
        return Numeric;
      }
      failed := failed || !node || !copy;
      forall h', d | 0 <= h' < BUCKETS && d in chains[h'] ensures Honest(d) {
        assert old(Honest(d));
      }
      if !node { return Numeric; }
      var c := Entry(port, proto, if copy then found else None);
      chains[h] := [c] + chains[h];
      assert Honest(c);
      forall h', d | 0 <= h' < BUCKETS && d in chains[h'] ensures Honest(d) {
        assert d == c || old(Honest(d));
      }
      assert Entries(h)[1..][0] == c;
      return Of(c.name);
    }
  }
}
