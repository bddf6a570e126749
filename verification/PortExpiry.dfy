/** What a release means for the ports that are handed out afterwards, and what each operation on
    a lease does (port_randomizer.cpp). */
module PortExpiry {
  import opened Options
  import opened PortTable
  import opened PortRandomizer
  import L = PortLeases

  // ---------------------------------------------------------------- TIME_WAIT

  /** The peer has a lease to give back. */
  predicate Leased(es: seq<Entry>, peer: string) {
    HasPeer(es, peer) && es[FindPeer(es, peer)].leases > 0
  }

  /** All but the peer's entry are unleased and have run out. */
  predicate OthersExpired(es: seq<Entry>, peer: string, now: int) {
    forall i :: 0 <= i < |es| && i != FindPeer(es, peer) ==> es[i].leases == 0 && es[i].expiry < now
  }

  /** After a release the port is in TIME_WAIT for four minutes: until they are over it is not free
      for anybody, and for the peer it counts as used by the same peer. It is free for everybody
      exactly when they are over, that was the last lease, and nothing else keeps it. */
  lemma ReleaseStartsTimeWait(t: Table, p: nat, peer: string, connected: bool, now: int, other: string, later: int)
    requires t.Valid() && 0 < p < PORTS && Leased(t.entries[p], peer)
    ensures var tier := Tier(Released(t, p, peer, connected, now), p, other, later);
            later <= now + 240000 ==> tier >= if other == peer then 3 else 2
    ensures var r := Released(t, p, peer, connected, now);
            var es := t.entries[p];
            !r.connecting[p] ==>
              (Tier(r, p, other, later) == 1 <==>
                later > now + 240000 && es[FindPeer(es, peer)].leases == 1 && OthersExpired(es, peer, later))
  {
    var es := t.entries[p];
    var i := FindPeer(es, peer);
    var e := Entry(peer, es[i].leases - 1, now + 240000);
    var es' := ReleasedEntry(es, peer, now);
    assert es' == es[i := e];
    var kept := Pruned(es', later);
    FreeIffAllExpired(es', later);
    assert es'[i] in es';
    if !Expired(e, later) {
      assert e in kept;
      PeerIsFound(kept, e);
    } else {
      forall x | x in es'
        ensures Expired(x, later) <==> x == e || Expired(x, later)
      {
      }
      if OthersExpired(es, peer, later) {
        assert forall x :: x in es' ==> Expired(x, later);
      } else {
        var j :| 0 <= j < |es| && j != i && !(es[j].leases == 0 && es[j].expiry < later);
        assert es'[j] in es' && !Expired(es'[j], later);
      }
    }
  }

  lemma {:induction false} PeerIsFound(es: seq<Entry>, e: Entry)
    requires e in es
    ensures HasPeer(es, e.peer)
  {
    if es[0].peer != e.peer {
      PeerIsFound(es[1..], e);
    }
  }

  /** A release gives back one lease of that peer and touches no other entry, and no other port. */
  lemma ReleaseTouchesOne(t: Table, p: nat, peer: string, connected: bool, now: int, q: nat, i: nat)
    requires t.Valid() && 0 < p < PORTS && 0 < q < PORTS && Leased(t.entries[p], peer)
    ensures var r := Released(t, p, peer, connected, now);
            && |r.entries[p]| == |t.entries[p]|
            && (q != p ==> r.entries[q] == t.entries[q] && r.connecting[q] == t.connecting[q])
            && (i < |t.entries[p]| ==>
                  r.entries[p][i] == if i == FindPeer(t.entries[p], peer)
                                     then Entry(peer, t.entries[p][i].leases - 1, now + 240000) else t.entries[p][i])
            && (r.connecting[p] <==> connected && t.connecting[p])
  {
  }

  /** A fresh search does not come to a port in TIME_WAIT as long as there is a free one. */
  lemma SearchAvoidsTimeWait(s: Search, t: Table, p: nat, peer: string, connected: bool, now: int,
                             other: string, later: int, q: nat)
    requires s.Valid() && s.prev == 0 && t.Valid() && 0 < p < PORTS && Leased(t.entries[p], peer)
    requires later <= now + 240000
    requires s.min <= q <= s.max && Tier(Released(t, p, peer, connected, now), q, other, later) == 1
    ensures Find(s, Released(t, p, peer, connected, now), other, later).port != p
  {
    hide Tier, Find, Released;
    var r := Released(t, p, peer, connected, now);
    FreshChoiceIsBest(s, r, other, later);
    ReleaseStartsTimeWait(t, p, peer, connected, now, other, later);
    FreeIsNotListening(r, q, other, later);
  }

  lemma FreeIsNotListening(t: Table, q: nat, peer: string, now: int)
    requires t.Valid() && 0 < q < PORTS && Tier(t, q, peer, now) == 1
    ensures !t.connecting[q]
  {
  }

  /** Once the time is over it takes it again, if it comes to it first. */
  lemma SearchTakesExpired(s: Search, t: Table, peer: string, connected: bool, now: int, other: string, later: int)
    requires s.Valid() && s.prev == 0 && t.Valid() && Leased(t.entries[s.first], peer)
    requires later > now + 240000 && OthersExpired(t.entries[s.first], peer, later)
    requires t.entries[s.first][FindPeer(t.entries[s.first], peer)].leases == 1
    requires !Released(t, s.first, peer, connected, now).connecting[s.first]
    ensures Find(s, Released(t, s.first, peer, connected, now), other, later).port == s.first
  {
    hide Tier, Find, Released;
    var r := Released(t, s.first, peer, connected, now);
    FreshChoiceIsBest(s, r, other, later);
    ReleaseStartsTimeWait(t, s.first, peer, connected, now, other, later);
    var port := Find(s, r, other, later).port;
    assert Position(s, s.first) == 0;
    if port != 0 {
      PositionIsFirst(s, port);
    }
  }

  lemma PositionIsFirst(s: Search, p: nat)
    requires s.Valid() && s.min <= p <= s.max && Position(s, p) == 0
    ensures p == s.first
  {
  }

  // ---------------------------------------------------------------- bounds

  /** The constructor settles on the ports between the two arguments, in either order, that are ports
      at all; if there are none, on the nearest one. */
  lemma BoundsExactly(a: int, b: int, p: int)
    requires 1 <= p <= 65535
    ensures var (lo, hi) := Bounds(a, b);
            && (a <= p <= b || b <= p <= a ==> lo <= p <= hi)
            && (lo <= p <= hi ==> a <= p <= b || b <= p <= a ||
                                  (lo == hi == 1 && a <= 0 && b <= 0) || (lo == hi == 65535 && a > 65535 && b > 65535))
  {
  }

  // ---------------------------------------------------------------- operations on leases

  /** Getting a connection ends the listening stage of the port, and changes nothing else. */
  lemma ConnectEndsListening(s: L.State, id: nat)
    requires L.Inv(s) && id in s.leases && s.leases[id].port != 0 && !s.leases[id].connected
    ensures var l, r := s.leases[id], L.Do(s, L.SetConnected(id));
            && s.table.connecting[l.port]
            && r.table == s.table.(connecting := s.table.connecting[l.port := false])
            && r.leases == s.leases[id := l.(connected := true)]
  {
    var l := s.leases[id];
    assert id in L.Waiting(s.leases, l.port);
    assert |L.Waiting(s.leases, l.port)| == if s.table.connecting[l.port] then 1 else 0;
  }

  /** Destroying a lease gives back its port: one lease less for the pair, TIME_WAIT from now on, and
      the end of the listening stage if the lease was in it. */
  lemma DestroyGivesBack(s: L.State, id: nat, now: int)
    requires L.Inv(s) && id in s.leases && s.leases[id].port != 0
    ensures var l, r := s.leases[id], L.Do(s, L.Destroy(id, now));
            && r.leases == s.leases - {id}
            && L.Count(r.table.entries[l.port], l.peer) == L.Count(s.table.entries[l.port], l.peer) - 1
            && HasPeer(r.table.entries[l.port], l.peer)
            && r.table.entries[l.port][FindPeer(r.table.entries[l.port], l.peer)].expiry == now + 240000
            && (!l.connected ==> !r.table.connecting[l.port])
  {
    var l := s.leases[id];
    L.ReleaseFindsEntry(s, id);
    var es := s.table.entries[l.port];
    var i := FindPeer(es, l.peer);
    SamePlace(es, i, es[i].(leases := es[i].leases - 1, expiry := now + 240000));
  }

  lemma {:induction false} SamePlace(es: seq<Entry>, i: nat, e: Entry)
    requires i < |es| && FindPeer(es, e.peer) == i && es[i].peer == e.peer
    ensures FindPeer(es[i := e], e.peer) == i
  {
    var r := es[i := e];
    var j := FindPeer(r, e.peer);
    assert r[i] == e;
    assert forall k :: 0 <= k < i ==> r[k] == es[k];
  }

  /** Moving a lease hands over port, peer and stage, and leaves the table alone. */
  lemma MoveHandsOver(s: L.State, id: nat, from: nat)
    requires s.table.Valid() && L.Enabled(s, L.MoveConstruct(id, from))
    ensures var r := L.Do(s, L.MoveConstruct(id, from));
            && r.table == s.table && r.leases.Keys == s.leases.Keys + {id}
            && r.leases[id] == s.leases[from] && r.leases[from].port == 0
            && forall x :: x in s.leases && x != from ==> r.leases[x] == s.leases[x]
  {
  }

  /** Assigning does the same after giving back the port that was held before; a lease that is assigned
      to itself loses its port. */
  lemma AssignGivesBack(s: L.State, id: nat, from: nat, now: int)
    requires L.Inv(s) && id in s.leases && from in s.leases
    ensures var r := L.Do(s, L.MoveAssign(id, from, now));
            && r.table == L.Do(s, L.Destroy(id, now)).table
            && r.leases.Keys == s.leases.Keys && r.leases[from].port == 0
            && (id != from ==> r.leases[id] == s.leases[from])
            && forall x :: x in s.leases && x != from && x != id ==> r.leases[x] == s.leases[x]
  {
  }
}
