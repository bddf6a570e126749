/** The life of port leases (`port_lease` of port_randomizer.cpp) and what the shared table
    says about them after any interleaving of operations by any number of sessions. */
module PortLeases {
  import opened Options
  import opened PortTable
  import PortRandomizer

  /** A lease object. A moved-from lease keeps everything but its port; what its peer string
      holds then is never looked at. */
  datatype Lease = Lease(port: nat, peer: string, managed: bool, connected: bool)

  const NoLease := Lease(0, "", false, false)

  /** The table and all lease objects that are alive, by identity. */
  datatype State = State(table: Table, leases: map<nat, Lease>)

  datatype Op =
    | Create(id: nat)
    | Look(id: nat, port: nat, peer: string, now: int, policy: Policy)
    | NoPort(id: nat, peer: string)
    | SetConnected(id: nat)
    | MoveConstruct(id: nat, from: nat)
    | MoveAssign(id: nat, from: nat, now: int)
    | Destroy(id: nat, now: int)

  function ReleaseBy(t: Table, l: Lease, now: int): (r: Table)
    requires t.Valid()
    ensures r.Valid()
  {
    if l.managed then Released(t, l.port, l.peer, l.connected, now) else t
  }

  /** When an operation can be carried out: new objects are new, used ones exist, and a search
      only looks at real ports. */
  predicate Enabled(s: State, op: Op) {
    match op
    case Create(id) => id !in s.leases
    case Look(id, p, _, _, _) => id !in s.leases && 0 < p < PORTS
    case NoPort(id, _) => id !in s.leases
    case SetConnected(id) => id in s.leases
    case MoveConstruct(id, from) => id !in s.leases && from in s.leases
    case MoveAssign(id, from, _) => id in s.leases && from in s.leases
    case Destroy(id, _) => id in s.leases
  }

  /** One operation, each a locked step of the source. `Look` is one round of a search, which
      makes a lease if it takes the port; `NoPort` is a search that gave up. */
  function Do(s: State, op: Op): (r: State)
    requires s.table.Valid() && Enabled(s, op)
    ensures r.table.Valid()
  {
    match op
    case Create(id) => s.(leases := s.leases[id := NoLease])
    case Look(id, p, peer, now, policy) =>
      var a := Tried(s.table, p, peer, now, policy);
      State(a.table, if a.got then s.leases[id := Lease(p, peer, true, false)] else s.leases)
    case NoPort(id, peer) => s.(leases := s.leases[id := Lease(0, peer, true, false)])
    case SetConnected(id) =>
      var l := s.leases[id];
      if l.managed && !l.connected then
        State(PortTable.Connected(s.table, l.port), s.leases[id := l.(connected := true)])
      else s
    case MoveConstruct(id, from) =>
      var l := s.leases[from];
      s.(leases := s.leases[id := l][from := l.(port := 0)])
    case MoveAssign(id, from, now) =>
      var l := s.leases[from];
      State(ReleaseBy(s.table, s.leases[id], now), s.leases[id := l][from := l.(port := 0)])
    case Destroy(id, now) =>
      State(ReleaseBy(s.table, s.leases[id], now), s.leases - {id})
  }

  // ---------------------------------------------------------------- what the table means

  /** The leases that hold a port for a peer, and those of them still waiting for a
      connection on it. */
  function Holders(m: map<nat, Lease>, p: nat, peer: string): set<nat> {
    set id | id in m && m[id].port == p && m[id].peer == peer
  }

  function Waiting(m: map<nat, Lease>, p: nat): set<nat> {
    set id | id in m && m[id].port == p && !m[id].connected
  }

  /** The lease count that the table keeps for a port and a peer. */
  function Count(es: seq<Entry>, peer: string): nat {
    var i := FindPeer(es, peer);
    if i < |es| then es[i].leases else 0
  }

  predicate OneEntryPerPeer(es: seq<Entry>) {
    forall i, j :: 0 <= i < j < |es| ==> es[i].peer != es[j].peer
  }

  /** The table agrees with the live leases: one entry at most for a port and a peer, which
      counts the leases for that pair, and the listening mark of a port set exactly when one
      lease, and no more than one, waits there. */
  ghost predicate Inv(s: State) {
    && s.table.Valid()
    && (forall id :: id in s.leases ==> s.leases[id].port < PORTS)
    && (forall id :: id in s.leases && !s.leases[id].managed ==> s.leases[id].port == 0)
    && (forall p :: 0 < p < PORTS ==> OneEntryPerPeer(s.table.entries[p]))
    && (forall p, peer :: 0 < p < PORTS ==>
          Count(s.table.entries[p], peer) == |Holders(s.leases, p, peer)|)
    && (forall p :: 0 < p < PORTS ==>
          |Waiting(s.leases, p)| == if s.table.connecting[p] then 1 else 0)
  }

  // ---------------------------------------------------------------- single entries

  lemma {:induction false} PrunedKeepsPeers(es: seq<Entry>, now: int)
    requires OneEntryPerPeer(es)
    ensures OneEntryPerPeer(Pruned(es, now))
    ensures forall peer :: Count(Pruned(es, now), peer) == Count(es, peer)
  {
    if es != [] {
      var e, rest := es[0], es[1..];
      PrunedKeepsPeers(rest, now);
      forall peer
        ensures Count(Pruned(es, now), peer) == Count(es, peer)
      {
        CountCons(e, rest, peer);
        CountCons(e, Pruned(rest, now), peer);
        assert es == [e] + rest;
        if e.peer == peer {
          NoOther(rest, peer);
        }
      }
      var kept := Pruned(rest, now);
      forall j | 0 <= j < |kept|
        ensures kept[j].peer != e.peer
      {
        assert kept[j] in kept;
        var k :| 0 <= k < |rest| && rest[k] == kept[j];
        assert es[k + 1] == rest[k];
      }
    }
  }

  lemma CountCons(e: Entry, es: seq<Entry>, peer: string)
    ensures Count([e] + es, peer) == if e.peer == peer then e.leases else Count(es, peer)
  {
    assert ([e] + es)[1..] == es;
  }

  lemma NoOther(es: seq<Entry>, peer: string)
    requires forall i :: 0 <= i < |es| ==> es[i].peer != peer
    ensures Count(es, peer) == 0
  {
  }

  /** A visit to a port keeps the entries apart and counts the new lease, if there is one. */
  lemma VisitCounts(es: seq<Entry>, peer: string, now: int, policy: Policy)
    requires OneEntryPerPeer(es)
    ensures var (r, got) := Visit(es, peer, now, policy);
            && OneEntryPerPeer(r)
            && forall q :: Count(r, q) == Count(es, q) + (if got && q == peer then 1 else 0)
  {
    PrunedKeepsPeers(es, now);
    var kept := if !policy.reuseOther && !policy.reuseSame then Pruned(es, now) else es;
    var (r, got) := Visit(es, peer, now, policy);
    var i := FindPeer(kept, peer);
    forall q
      ensures Count(r, q) == Count(kept, q) + (if got && q == peer then 1 else 0)
    {
      if got {
        if i < |kept| {
          CountUpdate(kept, i, r[i], q);
        } else {
          CountSnoc(kept, Entry(peer, 1, 0), q);
        }
      }
    }
  }

  lemma FoundAt(es: seq<Entry>, peer: string, i: nat)
    requires i < |es| && es[i].peer == peer
    requires forall j :: 0 <= j < i ==> es[j].peer != peer
    ensures FindPeer(es, peer) == i
  {
    var k := FindPeer(es, peer);
  }

  lemma CountUpdate(es: seq<Entry>, i: nat, e: Entry, q: string)
    requires i < |es| && e.peer == es[i].peer && FindPeer(es, e.peer) == i
    ensures Count(es[i := e], q) == if q == e.peer then e.leases else Count(es, q)
  {
    var r := es[i := e];
    var k := FindPeer(es, q);
    if k < |es| {
      FoundAt(r, q, k);
    }
  }

  lemma CountSnoc(es: seq<Entry>, e: Entry, q: string)
    requires FindPeer(es, e.peer) == |es|
    ensures Count(es + [e], q) == if q == e.peer then e.leases else Count(es, q)
  {
    var k := FindPeer(es, q);
    if k < |es| || q == e.peer {
      FoundAt(es + [e], q, k);
    }
  }

  /** A release takes one lease off the count, if there is one to take. */
  lemma ReleaseCounts(es: seq<Entry>, peer: string, now: int)
    requires OneEntryPerPeer(es)
    ensures var r := ReleasedEntry(es, peer, now);
            && OneEntryPerPeer(r)
            && forall q :: Count(r, q) == Count(es, q) - (if q == peer && Count(es, q) > 0 then 1 else 0)
  {
    var i := FindPeer(es, peer);
    var r := ReleasedEntry(es, peer, now);
    forall q
      ensures Count(r, q) == Count(es, q) - (if q == peer && Count(es, q) > 0 then 1 else 0)
    {
      if i < |es| && es[i].leases > 0 {
        CountUpdate(es, i, r[i], q);
      }
    }
  }

  // ---------------------------------------------------------------- counting leases

  predicate Holds(l: Lease, p: nat, peer: string) {
    l.port == p && l.peer == peer
  }

  predicate Waits(l: Lease, p: nat) {
    l.port == p && !l.connected
  }

  function One(b: bool): nat {
    if b then 1 else 0
  }

  lemma LeaseWritten(m: map<nat, Lease>, id: nat, l: Lease, p: nat, peer: string)
    ensures |Holders(m[id := l], p, peer)|
         == |Holders(m, p, peer)| - One(id in m && Holds(m[id], p, peer)) + One(Holds(l, p, peer))
    ensures |Waiting(m[id := l], p)|
         == |Waiting(m, p)| - One(id in m && Waits(m[id], p)) + One(Waits(l, p))
  {
    HolderWritten(m, id, l, p, peer);
    WaiterWritten(m, id, l, p);
  }

  lemma HolderWritten(m: map<nat, Lease>, id: nat, l: Lease, p: nat, peer: string)
    ensures |Holders(m[id := l], p, peer)|
         == |Holders(m, p, peer)| - One(id in m && Holds(m[id], p, peer)) + One(Holds(l, p, peer))
  {
    var h := Holders(m, p, peer);
    if Holds(l, p, peer) {
      assert Holders(m[id := l], p, peer) == (h - {id}) + {id};
    } else {
      assert Holders(m[id := l], p, peer) == h - {id};
    }
  }

  lemma WaiterWritten(m: map<nat, Lease>, id: nat, l: Lease, p: nat)
    ensures |Waiting(m[id := l], p)|
         == |Waiting(m, p)| - One(id in m && Waits(m[id], p)) + One(Waits(l, p))
  {
    var w := Waiting(m, p);
    if Waits(l, p) {
      assert Waiting(m[id := l], p) == (w - {id}) + {id};
    } else {
      assert Waiting(m[id := l], p) == w - {id};
    }
  }

  lemma LeaseGone(m: map<nat, Lease>, id: nat, p: nat, peer: string)
    requires id in m
    ensures |Holders(m - {id}, p, peer)| == |Holders(m, p, peer)| - One(Holds(m[id], p, peer))
    ensures |Waiting(m - {id}, p)| == |Waiting(m, p)| - One(Waits(m[id], p))
  {
    assert Holders(m - {id}, p, peer) == Holders(m, p, peer) - {id};
    assert Waiting(m - {id}, p) == Waiting(m, p) - {id};
  }

  lemma LeaseCounts(m: map<nat, Lease>, id: nat, p: nat, peer: string)
    requires id in m
    ensures Holds(m[id], p, peer) ==> |Holders(m, p, peer)| > 0
    ensures Waits(m[id], p) ==> |Waiting(m, p)| > 0
  {
    assert Holds(m[id], p, peer) ==> id in Holders(m, p, peer);
    assert Waits(m[id], p) ==> id in Waiting(m, p);
  }

  // ---------------------------------------------------------------- every operation keeps Inv

  /** A lease without a port counts for nothing. */
  lemma AddIdle(s: State, id: nat, l: Lease)
    requires Inv(s) && id !in s.leases && l.port == 0
    ensures Inv(s.(leases := s.leases[id := l]))
  {
    hide Holders, Waiting, Count;
    var m := s.leases[id := l];
    forall p, peer | 0 < p < PORTS
      ensures |Holders(m, p, peer)| == |Holders(s.leases, p, peer)|
      ensures |Waiting(m, p)| == |Waiting(s.leases, p)|
    {
      LeaseWritten(s.leases, id, l, p, peer);
    }
    forall p | 0 < p < PORTS
      ensures |Waiting(m, p)| == |Waiting(s.leases, p)|
    {
      LeaseWritten(s.leases, id, l, p, "");
    }
  }

  /** Destroying a lease: its release finds the entry, with a lease to give back. */
  lemma ReleaseFindsEntry(s: State, id: nat)
    requires Inv(s) && id in s.leases && s.leases[id].port != 0
    ensures var l := s.leases[id];
            var es := s.table.entries[l.port];
            l.managed && HasPeer(es, l.peer) && es[FindPeer(es, l.peer)].leases > 0
  {
    var l := s.leases[id];
    LeaseCounts(s.leases, id, l.port, l.peer);
    assert Count(s.table.entries[l.port], l.peer) == |Holders(s.leases, l.port, l.peer)|;
  }

  /** Pruning never touches an entry that some live lease counts on. */
  lemma PruneKeepsLeased(s: State, p: nat, peer: string, now: int)
    requires Inv(s) && 0 < p < PORTS
    ensures Count(Pruned(s.table.entries[p], now), peer) == |Holders(s.leases, p, peer)|
    ensures Holders(s.leases, p, peer) != {} ==> HasPeer(Pruned(s.table.entries[p], now), peer)
  {
    PrunedKeepsPeers(s.table.entries[p], now);
    assert Count(s.table.entries[p], peer) == |Holders(s.leases, p, peer)|;
  }

  lemma DoDestroy(s: State, id: nat, now: int)
    requires Inv(s) && id in s.leases
    ensures Inv(Do(s, Destroy(id, now)))
  {
    hide Holders, Waiting, Count, ReleasedEntry, OneEntryPerPeer;
    var l := s.leases[id];
    var r := Do(s, Destroy(id, now));
    forall p, peer | 0 < p < PORTS
      ensures OneEntryPerPeer(r.table.entries[p])
      ensures Count(r.table.entries[p], peer) == |Holders(r.leases, p, peer)|
    {
      LeaseGone(s.leases, id, p, peer);
      LeaseCounts(s.leases, id, p, peer);
      ReleaseCounts(s.table.entries[p], l.peer, now);
      assert Count(s.table.entries[p], peer) == |Holders(s.leases, p, peer)|;
    }
    forall p | 0 < p < PORTS
      ensures OneEntryPerPeer(r.table.entries[p])
      ensures |Waiting(r.leases, p)| == One(r.table.connecting[p])
    {
      LeaseGone(s.leases, id, p, "");
      LeaseCounts(s.leases, id, p, "");
      ReleaseCounts(s.table.entries[p], l.peer, now);
      assert |Waiting(s.leases, p)| == One(s.table.connecting[p]);
    }
  }

  lemma DoLook(s: State, id: nat, port: nat, peer: string, now: int, policy: Policy)
    requires Inv(s) && Enabled(s, Look(id, port, peer, now, policy))
    ensures Inv(Do(s, Look(id, port, peer, now, policy)))
  {
    hide Holders, Waiting, Count, Visit, OneEntryPerPeer;
    var r := Do(s, Look(id, port, peer, now, policy));
    var l := Lease(port, peer, true, false);
    VisitCounts(s.table.entries[port], peer, now, policy);
    forall p, q | 0 < p < PORTS
      ensures Count(r.table.entries[p], q) == |Holders(r.leases, p, q)|
    {
      LeaseWritten(s.leases, id, l, p, q);
      assert Count(s.table.entries[p], q) == |Holders(s.leases, p, q)|;
    }
    forall p | 0 < p < PORTS
      ensures |Waiting(r.leases, p)| == One(r.table.connecting[p])
    {
      LeaseWritten(s.leases, id, l, p, peer);
      assert |Waiting(s.leases, p)| == One(s.table.connecting[p]);
    }
  }

  lemma DoSetConnected(s: State, id: nat)
    requires Inv(s) && id in s.leases
    ensures Inv(Do(s, SetConnected(id)))
  {
    hide Holders, Waiting, Count, OneEntryPerPeer;
    var l := s.leases[id];
    var l1 := l.(connected := true);
    var r := Do(s, SetConnected(id));
    forall p, peer | 0 < p < PORTS
      ensures Count(r.table.entries[p], peer) == |Holders(r.leases, p, peer)|
    {
      LeaseWritten(s.leases, id, l1, p, peer);
      assert Count(s.table.entries[p], peer) == |Holders(s.leases, p, peer)|;
    }
    forall p | 0 < p < PORTS
      ensures |Waiting(r.leases, p)| == One(r.table.connecting[p])
    {
      LeaseWritten(s.leases, id, l1, p, "");
      LeaseCounts(s.leases, id, p, "");
      assert |Waiting(s.leases, p)| == One(s.table.connecting[p]);
    }
  }

  lemma DoMoveConstruct(s: State, id: nat, from: nat)
    requires Inv(s) && Enabled(s, MoveConstruct(id, from))
    ensures Inv(Do(s, MoveConstruct(id, from)))
  {
    hide Holders, Waiting, Count, OneEntryPerPeer;
    var l := s.leases[from];
    var m := s.leases[id := l];
    var r := Do(s, MoveConstruct(id, from));
    forall p, peer | 0 < p < PORTS
      ensures Count(r.table.entries[p], peer) == |Holders(r.leases, p, peer)|
    {
      LeaseWritten(s.leases, id, l, p, peer);
      LeaseWritten(m, from, l.(port := 0), p, peer);
      assert Count(s.table.entries[p], peer) == |Holders(s.leases, p, peer)|;
    }
    forall p | 0 < p < PORTS
      ensures |Waiting(r.leases, p)| == One(r.table.connecting[p])
    {
      LeaseWritten(s.leases, id, l, p, "");
      LeaseWritten(m, from, l.(port := 0), p, "");
      assert |Waiting(s.leases, p)| == One(s.table.connecting[p]);
    }
  }

  /** Assigning is destroying and constructing in one; assigning a lease to itself gives its
      port back. */
  lemma DoMoveAssign(s: State, id: nat, from: nat, now: int)
    requires Inv(s) && id in s.leases && from in s.leases
    ensures Inv(Do(s, MoveAssign(id, from, now)))
    ensures id != from ==>
              Do(s, MoveAssign(id, from, now)) == Do(Do(s, Destroy(id, now)), MoveConstruct(id, from))
  {
    hide Inv, ReleaseBy;
    InvValid(s);
    var r := Do(s, MoveAssign(id, from, now));
    var d := Do(s, Destroy(id, now));
    DoDestroy(s, id, now);
    if id == from {
      AddIdle(d, id, s.leases[id].(port := 0));
      assert r.leases == d.leases[id := s.leases[id].(port := 0)];
    } else {
      DoMoveConstruct(d, id, from);
      assert r.leases == Do(d, MoveConstruct(id, from)).leases;
    }
  }

  lemma StepKeepsInv(s: State, op: Op)
    requires Inv(s) && Enabled(s, op)
    ensures Inv(Do(s, op))
  {
    hide Inv;
    InvValid(s);
    match op
    case Create(id) => AddIdle(s, id, NoLease);
    case Look(id, p, peer, now, policy) => DoLook(s, id, p, peer, now, policy);
    case NoPort(id, peer) => AddIdle(s, id, Lease(0, peer, true, false));
    case SetConnected(id) => DoSetConnected(s, id);
    case MoveConstruct(id, from) => DoMoveConstruct(s, id, from);
    case MoveAssign(id, from, now) => DoMoveAssign(s, id, from, now);
    case Destroy(id, now) => DoDestroy(s, id, now);
  }

  lemma InvValid(s: State)
    requires Inv(s)
    ensures s.table.Valid()
  {
  }

  // ---------------------------------------------------------------- whole runs

  function Empty(): (s: State)
    ensures s.table.Valid()
  {
    State(Table(seq(PORTS, _ => []), seq(PORTS, _ => false)), map[])
  }

  /** The state after a run that starts with the empty table; nothing if some operation could
      not be carried out. */
  function Run(ops: seq<Op>): (r: Option<State>)
    ensures r.Some? ==> r.value.table.Valid()
  {
    if ops == [] then Some(Empty())
    else match Run(ops[..|ops| - 1])
      case None => None
      case Some(s) => if Enabled(s, ops[|ops| - 1]) then Some(Do(s, ops[|ops| - 1])) else None
  }

  lemma EmptyInv()
    ensures Inv(Empty())
  {
    forall p, peer | 0 < p < PORTS
      ensures |Holders(Empty().leases, p, peer)| == 0
      ensures |Waiting(Empty().leases, p)| == 0
    {
      assert Holders(Empty().leases, p, peer) == {};
      assert Waiting(Empty().leases, p) == {};
    }
    forall p | 0 < p < PORTS
      ensures |Waiting(Empty().leases, p)| == 0
    {
      assert Waiting(Empty().leases, p) == {};
    }
  }

  lemma {:induction false} ReachableInv(ops: seq<Op>)
    requires Run(ops).Some?
    ensures Inv(Run(ops).value)
    decreases |ops|
  {
    hide Inv, Do;
    if ops == [] {
      EmptyInv();
    } else {
      ReachableInv(ops[..|ops| - 1]);
      StepKeepsInv(Run(ops[..|ops| - 1]).value, ops[|ops| - 1]);
    }
  }

  /** Two leases that are both still waiting for their connection never share a port. */
  lemma WaitingLeasesAreApart(ops: seq<Op>, a: nat, b: nat)
    requires Run(ops).Some? && a in Run(ops).value.leases && b in Run(ops).value.leases && a != b
    requires var m := Run(ops).value.leases; m[a].port != 0 && !m[a].connected && !m[b].connected
    ensures var s := Run(ops).value;
            && s.leases[a].port != s.leases[b].port
            && s.leases[a].port < PORTS && s.table.connecting[s.leases[a].port]
  {
    ReachableInv(ops);
    var s := Run(ops).value;
    var p := s.leases[a].port;
    var w := Waiting(s.leases, p);
    assert |w| == One(s.table.connecting[p]);
    assert a in w;
    if b in w {
      assert |{a, b}| == 2;
      CardSubset({a, b}, w);
    }
  }

  lemma {:induction false} CardSubset(a: set<nat>, b: set<nat>)
    requires a <= b
    ensures |a| <= |b|
  {
    if a != {} {
      var x :| x in a;
      CardSubset(a - {x}, b - {x});
    }
  }

  /** Lease conservation over every run: for each port and peer at most one entry, whose count
      is the number of live leases for that pair. */
  lemma Conservation(ops: seq<Op>, p: nat, peer: string)
    requires Run(ops).Some? && 0 < p < PORTS
    ensures var s := Run(ops).value;
            && OneEntryPerPeer(s.table.entries[p])
            && Count(s.table.entries[p], peer) == |Holders(s.leases, p, peer)|
            && (s.table.connecting[p] <==> |Waiting(s.leases, p)| == 1)
            && |Waiting(s.leases, p)| <= 1
  {
    ReachableInv(ops);
    var s := Run(ops).value;
    assert |Waiting(s.leases, p)| == One(s.table.connecting[p]);
  }

  // ---------------------------------------------------------------- searches are runs

  function DoAll(s: State, ops: seq<Op>): (r: Option<State>)
    requires s.table.Valid()
    ensures r.Some? ==> r.value.table.Valid()
    decreases |ops|
  {
    if ops == [] then Some(s)
    else if Enabled(s, ops[0]) then DoAll(Do(s, ops[0]), ops[1..])
    else None
  }

  /** The rounds of one search, as operations that others may come between. */
  function Looks(s: PortRandomizer.Search, t: Table, id: nat, peer: string, now: int): seq<Op>
    requires s.Valid() && t.Valid()
    decreases PortRandomizer.Budget(s)
  {
    PortRandomizer.AdvanceSpendsBudget(s);
    match PortRandomizer.Advance(s)
    case GiveUp(_) => [NoPort(id, peer)]
    case Look(s1) =>
      var a := Tried(t, s1.prev, peer, now, s1.policy);
      [Look(id, s1.prev, peer, now, s1.policy)]
      + if a.got then [] else Looks(s1, a.table, id, peer, now)
  }

  /** `get_port` without interference is the run of its rounds, and ends with a new lease for
      the port that the search found. */
  lemma {:induction false} GetPortIsARun(s: PortRandomizer.Search, st: State, id: nat, peer: string, now: int)
    requires s.Valid() && st.table.Valid() && id !in st.leases
    ensures var r := PortRandomizer.Find(s, st.table, peer, now);
            DoAll(st, Looks(s, st.table, id, peer, now))
            == Some(State(r.table, st.leases[id := Lease(r.port, peer, true, false)]))
    decreases PortRandomizer.Budget(s)
  {
    hide Tried, PortRandomizer.Budget;
    PortRandomizer.AdvanceSpendsBudget(s);
    var ops := Looks(s, st.table, id, peer, now);
    match PortRandomizer.Advance(s)
    case GiveUp(_) =>
    case Look(s1) =>
      var a := Tried(st.table, s1.prev, peer, now, s1.policy);
      if a.got {
        assert ops[1..] == [];
      } else {
        assert ops[1..] == Looks(s1, a.table, id, peer, now);
        GetPortIsARun(s1, State(a.table, st.leases), id, peer, now);
      }
  }

  // ---------------------------------------------------------------- the lease object

  class PortLease {
    var port: nat
    var peer: string
    var manager: PortManager?
    var connected: bool

    ghost predicate Valid()
      reads this
    {
      manager != null ==> manager.Valid()
    }

    ghost function Value(): Lease
      reads this
    {
      Lease(port, peer, manager != null, connected)
    }

    ghost function Cells(): set<object>
      reads this
    {
      if manager == null then {} else {manager.entries, manager.connecting}
    }

    constructor ()
      ensures Valid() && Value() == NoLease && manager == null
    {
      port, peer, manager, connected := 0, "", null, false;
    }

    constructor Of(p: nat, peer: string, manager: PortManager)
      requires manager.Valid()
      ensures Valid() && Value() == Lease(p, peer, true, false) && this.manager == manager
    {
      port, this.peer, this.manager, connected := p, peer, manager, false;
    }

    /** The move constructor. */
    constructor Move(lease: PortLease)
      requires lease.Valid()
      modifies lease
      ensures Valid() && lease.Valid()
      ensures Value() == old(lease.Value()) && manager == old(lease.manager)
      ensures lease.Value() == old(lease.Value()).(port := 0) && lease.manager == old(lease.manager)
    {
      port, peer, manager, connected := lease.port, lease.peer, lease.manager, lease.connected;
      new;
      lease.port := 0;
    }

    /** Move assignment; `lease` may be this very object. */
    method Assign(lease: PortLease, now: int)
      requires Valid() && lease.Valid()
      modifies this, lease, Cells()
      ensures Valid() && lease.Valid()
      ensures this != lease ==>
                && Value() == old(lease.Value()) && manager == old(lease.manager)
                && lease.Value() == old(lease.Value()).(port := 0) && lease.manager == old(lease.manager)
      ensures this == lease ==> Value() == old(Value()).(port := 0) && manager == old(manager)
      ensures old(manager) != null ==>
                old(manager).Contents() == ReleaseBy(old(manager.Contents()), old(Value()), now)
    {
      if manager != null {
        manager.Release(port, peer, connected, now);
      }
      port, peer, manager, connected := lease.port, lease.peer, lease.manager, lease.connected;
      lease.port := 0;
    }

    /** The destructor. */
    method Destroy(now: int)
      requires Valid()
      modifies Cells()
      ensures manager != null ==> manager.Contents() == ReleaseBy(old(manager.Contents()), Value(), now)
    {
      if manager != null {
        manager.Release(port, peer, connected, now);
      }
    }

    method SetConnected()
      requires Valid()
      modifies this, Cells()
      ensures Valid() && manager == old(manager)
      ensures Value() == if manager != null then old(Value()).(connected := true) else old(Value())
      ensures manager != null ==>
                manager.Contents() == if old(connected) then old(manager.Contents())
                                      else PortTable.Connected(old(manager.Contents()), port)
    {
      if manager != null && !connected {
        connected := true;
        manager.SetConnected(port);
      }
    }
  }
}
