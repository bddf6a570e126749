/** The per-port table that all passive-mode leases share (`port_manager` of
    port_randomizer.cpp). */
module PortTable {
  const PORTS := 65536

  /** Four minutes of TIME_WAIT, in milliseconds. */
  const TIME_WAIT := 240000

  datatype Entry = Entry(peer: string, leases: nat, expiry: int)

  datatype Table = Table(entries: seq<seq<Entry>>, connecting: seq<bool>) {
    predicate Valid() {
      |entries| == |connecting| == PORTS
    }
  }

  /** `find_if` by peer: the first matching index, or the length. */
  function FindPeer(es: seq<Entry>, peer: string): (i: nat)
    ensures i <= |es|
    ensures i < |es| ==> es[i].peer == peer
    ensures forall j :: 0 <= j < i ==> es[j].peer != peer
  {
    if es == [] || es[0].peer == peer then 0 else 1 + FindPeer(es[1..], peer)
  }

  predicate HasPeer(es: seq<Entry>, peer: string) {
    FindPeer(es, peer) < |es|
  }

  predicate Expired(e: Entry, now: int) {
    e.leases == 0 && e.expiry < now
  }

  /** The entries that pruning keeps, in order. */
  function Pruned(es: seq<Entry>, now: int): (r: seq<Entry>)
    ensures forall e :: e in r <==> e in es && !Expired(e, now)
  {
    if es == [] then []
    else if Expired(es[0], now) then Pruned(es[1..], now)
    else [es[0]] + Pruned(es[1..], now)
  }

  /** Giving back one lease starts the TIME_WAIT of its entry. */
  function ReleasedEntry(es: seq<Entry>, peer: string, now: int): seq<Entry> {
    var i := FindPeer(es, peer);
    if i < |es| && es[i].leases > 0 then
      es[i := es[i].(leases := es[i].leases - 1, expiry := now + TIME_WAIT)]
    else es
  }

  function Released(t: Table, p: nat, peer: string, connected: bool, now: int): (r: Table)
    requires t.Valid()
    ensures r.Valid()
  {
    if 0 < p < PORTS then
      Table(t.entries[p := ReleasedEntry(t.entries[p], peer, now)],
            if connected then t.connecting else t.connecting[p := false])
    else t
  }

  function Connected(t: Table, p: nat): (r: Table)
    requires t.Valid()
    ensures r.Valid()
  {
    if 0 < p < PORTS then t.(connecting := t.connecting[p := false]) else t
  }

  /** What the search may settle for. */
  datatype Policy = Policy(reuseOther: bool, reuseSame: bool)

  datatype Attempt = Attempt(table: Table, got: bool)

  /** The entries after one visit to a port that is not in the listening stage, and whether
      the port was taken. */
  function Visit(es: seq<Entry>, peer: string, now: int, policy: Policy): (r: (seq<Entry>, bool)) {
    var kept := if !policy.reuseOther && !policy.reuseSame then Pruned(es, now) else es;
    var i := FindPeer(kept, peer);
    if i < |kept| then
      if policy.reuseSame then (kept[i := kept[i].(leases := kept[i].leases + 1)], true)
      else (kept, false)
    else if kept == [] || policy.reuseOther then (kept + [Entry(peer, 1, 0)], true)
    else (kept, false)
  }

  /** The locked body of the search loop. A port that is taken enters the listening stage. */
  function Tried(t: Table, p: nat, peer: string, now: int, policy: Policy): (a: Attempt)
    requires t.Valid() && 0 < p < PORTS
    ensures a.table.Valid()
  {
    if t.connecting[p] then Attempt(t, false)
    else
      var (es, got) := Visit(t.entries[p], peer, now, policy);
      Attempt(Table(t.entries[p := es], t.connecting[p := got]), got)
  }

  lemma {:induction false} PrunedIdempotent(es: seq<Entry>, now: int)
    ensures Pruned(Pruned(es, now), now) == Pruned(es, now)
  {
    if es != [] {
      PrunedIdempotent(es[1..], now);
      var rest := Pruned(es[1..], now);
      if !Expired(es[0], now) {
        assert ([es[0]] + rest)[1..] == rest;
      }
    }
  }

  lemma PrunedStep(es: seq<Entry>, i: nat, now: int)
    requires i < |es|
    ensures Pruned(es[i..], now)
         == if Expired(es[i], now) then Pruned(es[i + 1..], now) else [es[i]] + Pruned(es[i + 1..], now)
  {
    assert es[i..][1..] == es[i + 1..];
  }

  /** A port is free exactly when all its entries have run out. */
  lemma {:induction false} FreeIffAllExpired(es: seq<Entry>, now: int)
    ensures Pruned(es, now) == [] <==> forall e :: e in es ==> Expired(e, now)
  {
    var r := Pruned(es, now);
    if r != [] {
      assert r[0] in r;
    }
  }

  /** The shared table as the source keeps it: one mutable cell per port. */
  class PortManager {
    const entries: array<seq<Entry>>
    const connecting: array<bool>

    ghost predicate Valid() {
      entries.Length == connecting.Length == PORTS
    }

    ghost function Contents(): (t: Table)
      reads entries, connecting
      requires Valid()
      ensures t.Valid()
    {
      Table(entries[..], connecting[..])
    }

    constructor ()
      ensures Valid() && fresh(entries) && fresh(connecting)
      ensures Contents() == Table(seq(PORTS, _ => []), seq(PORTS, _ => false))
    {
      entries := new seq<Entry>[PORTS](_ => []);
      connecting := new bool[PORTS](_ => false);
    }

    method Find(es: seq<Entry>, peer: string) returns (i: nat)
      ensures i == FindPeer(es, peer)
    {
      i := 0;
      while i < |es| && es[i].peer != peer
        invariant i <= FindPeer(es, peer)
      {
        i := i + 1;
      }
    }

    method Release(p: nat, peer: string, connected: bool, now: int)
      requires Valid()
      modifies entries, connecting
      ensures Contents() == Released(old(Contents()), p, peer, connected, now)
    {
      if p != 0 && p < PORTS {
        var es := entries[p];
        var i := Find(es, peer);
        if i < |es| && es[i].leases > 0 {
          entries[p] := es[i := es[i].(leases := es[i].leases - 1, expiry := now + TIME_WAIT)];
        }
        if !connected {
          connecting[p] := false;
        }
      }
      assert Contents() == Released(old(Contents()), p, peer, connected, now);
    }

    method SetConnected(p: nat)
      requires Valid()
      modifies connecting
      ensures Contents() == Connected(old(Contents()), p)
    {
      if p != 0 && p < PORTS {
        connecting[p] := false;
      }
    }

    /** `remove_if`. */
    method Keep(es: seq<Entry>, now: int) returns (kept: seq<Entry>)
      ensures kept == Pruned(es, now)
    {
      kept := [];
      var i := 0;
      while i < |es|
        invariant 0 <= i <= |es|
        invariant kept + Pruned(es[i..], now) == Pruned(es, now)
      {
        PrunedStep(es, i, now);
        if !Expired(es[i], now) {
          kept := kept + [es[i]];
        }
        i := i + 1;
      }
    }

    method Prune(p: nat, now: int)
      requires Valid() && p < PORTS
      modifies entries
      ensures entries[..] == old(entries[..])[p := Pruned(old(entries[p]), now)]
    {
      entries[p] := Keep(entries[p], now);
    }

    /** One round of `do_get_port` under the lock of port `p`. */
    method Try(p: nat, peer: string, now: int, policy: Policy) returns (got: bool)
      requires Valid() && 0 < p < PORTS
      modifies entries, connecting
      ensures var a := Tried(old(Contents()), p, peer, now, policy);
              Contents() == a.table && got == a.got
    {
      ghost var was := Contents();
      if connecting[p] {
        return false;
      }
      connecting[p] := true;
      if !policy.reuseOther && !policy.reuseSame {
        Prune(p, now);
      }
      var es := entries[p];
      var i := Find(es, peer);
      if i < |es| {
        if policy.reuseSame {
          entries[p] := es[i := es[i].(leases := es[i].leases + 1)];
          return true;
        }
      } else if es == [] || policy.reuseOther {
        entries[p] := es + [Entry(peer, 1, 0)];
        return true;
      }
      connecting[p] := false;
      return false;
    }
  }
}
