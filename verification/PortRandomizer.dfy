/** Choosing a passive-mode port (`port_randomizer` of port_randomizer.cpp). */
module PortRandomizer {
  import opened PortTable

  /** What a randomizer remembers between calls. `prev` is 0 until a port has been tried. */
  datatype Search = Search(min: nat, max: nat, first: nat, prev: nat, policy: Policy) {
    /** Holds of every randomizer that the constructor makes, and is kept by the search. */
    predicate Valid() {
      && 1 <= min <= first <= max < PORTS
      && (prev != 0 ==> min <= prev <= max)
      && (policy.reuseSame ==> policy.reuseOther)
      && (prev == 0 ==> !policy.reuseOther)
    }

    function Size(): nat
      requires Valid()
    {
      max - min + 1
    }
  }

  function Clamped(v: int): int {
    if v <= 0 then 1 else if v > 65535 then 65535 else v
  }

  /** The bounds that the constructor settles on. */
  function Bounds(minPort: int, maxPort: int): (r: (int, int))
    ensures 1 <= r.0 <= r.1 < PORTS
  {
    if minPort > maxPort then (Clamped(maxPort), Clamped(minPort))
    else (Clamped(minPort), Clamped(maxPort))
  }

  datatype Step = GiveUp(s: Search) | Look(s: Search)

  /** Moves on to the next port; coming round to the first one relaxes the policy. */
  function Advance(s: Search): (r: Step)
    requires s.Valid()
    ensures r.s.Valid() && r.s.prev != 0
    ensures r.s.min == s.min && r.s.max == s.max && r.s.first == s.first
  {
    if s.prev == 0 then Look(s.(prev := s.first))
    else
      var next := if s.prev + 1 < s.min || s.prev + 1 > s.max then s.min else s.prev + 1;
      if next != s.first then Look(s.(prev := next))
      else if !s.policy.reuseOther then Look(s.(prev := next, policy := Policy(true, s.policy.reuseSame)))
      else if !s.policy.reuseSame then Look(s.(prev := next, policy := Policy(true, true)))
      else GiveUp(s.(prev := next))
  }

  /** Number of ports passed before the search comes round to the first one. */
  function Distance(s: Search): nat
    requires s.Valid() && s.prev != 0
  {
    if s.prev < s.first then s.first - s.prev - 1 else (s.max - s.prev) + (s.first - s.min)
  }

  function Relaxations(p: Policy): nat {
    if p.reuseSame then 0 else if p.reuseOther then 1 else 2
  }

  /** Exact number of ports that are still to be looked at before the search gives up. */
  function Budget(s: Search): nat
    requires s.Valid()
  {
    if s.prev == 0 then 3 * s.Size() else Distance(s) + Relaxations(s.policy) * s.Size()
  }

  /** Termination, whatever happens to the table in between: every round uses up one of at
      most three sweeps' worth of ports. */
  lemma AdvanceSpendsBudget(s: Search)
    requires s.Valid()
    ensures Budget(s) <= 3 * s.Size()
    ensures Advance(s).GiveUp? <==> Budget(s) == 0
    ensures Advance(s).Look? ==> Budget(Advance(s).s) == Budget(s) - 1
  {
    var n := s.Size();
    assert 0 * n == 0 && 1 * n == n && 2 * n == n + n && 3 * n == n + n + n;
  }

  datatype Outcome = Outcome(search: Search, table: Table, port: nat, visited: seq<nat>)

  /** `do_get_port` when nobody else touches the table. */
  function Find(s: Search, t: Table, peer: string, now: int): (r: Outcome)
    requires s.Valid() && t.Valid()
    ensures r.table.Valid() && r.search.Valid()
    decreases Budget(s)
  {
    AdvanceSpendsBudget(s);
    match Advance(s)
    case GiveUp(s1) => Outcome(s1, t, 0, [])
    case Look(s1) =>
      var a := Tried(t, s1.prev, peer, now, s1.policy);
      if a.got then Outcome(s1, a.table, s1.prev, [s1.prev])
      else
        var r := Find(s1, a.table, peer, now);
        r.(visited := [s1.prev] + r.visited)
  }

  /** No search looks at more than three ports for every port of the range, or outside it. */
  lemma {:induction false} VisitsAreBounded(s: Search, t: Table, peer: string, now: int)
    requires s.Valid() && t.Valid()
    ensures var r := Find(s, t, peer, now);
            && |r.visited| <= Budget(s) <= 3 * s.Size()
            && (forall p :: p in r.visited ==> s.min <= p <= s.max)
            && (r.port == 0 ==> |r.visited| == Budget(s))
            && (r.port != 0 ==> r.visited != [] && r.port == r.visited[|r.visited| - 1])
    decreases Budget(s)
  {
    hide Budget, Tried;
    AdvanceSpendsBudget(s);
    match Advance(s)
    case GiveUp(s1) =>
    case Look(s1) =>
      var a := Tried(t, s1.prev, peer, now, s1.policy);
      if !a.got {
        VisitsAreBounded(s1, a.table, peer, now);
      }
  }

  /** The ports that a search looks at when others change the table between its rounds, and whether
      it gets the last one: the `k`-th port is looked at in `tables[k]`. */
  function VisitsAmong(s: Search, tables: seq<Table>, peer: string, now: int): (r: (seq<nat>, bool))
    requires s.Valid() && |tables| >= Budget(s) && forall t :: t in tables ==> t.Valid()
    decreases Budget(s)
  {
    AdvanceSpendsBudget(s);
    match Advance(s)
    case GiveUp(_) => ([], false)
    case Look(s1) =>
      assert tables[0] in tables;
      if Tried(tables[0], s1.prev, peer, now, s1.policy).got then ([s1.prev], true)
      else
        var (visited, got) := VisitsAmong(s1, tables[1..], peer, now);
        ([s1.prev] + visited, got)
  }

  /** Whatever others do meanwhile, a search ends within three sweeps, stays in its range, and gives
      up only when they are over. */
  lemma {:induction false} VisitsAmongAreBounded(s: Search, tables: seq<Table>, peer: string, now: int)
    requires s.Valid() && |tables| >= Budget(s) && forall t :: t in tables ==> t.Valid()
    ensures var (visited, got) := VisitsAmong(s, tables, peer, now);
            && |visited| <= Budget(s) <= 3 * s.Size()
            && (forall p :: p in visited ==> s.min <= p <= s.max)
            && (!got ==> |visited| == Budget(s))
            && (got ==> visited != [])
    decreases Budget(s)
  {
    hide Budget, Tried;
    AdvanceSpendsBudget(s);
    match Advance(s)
    case GiveUp(s1) =>
    case Look(s1) =>
      assert tables[0] in tables;
      if !Tried(tables[0], s1.prev, peer, now, s1.policy).got {
        VisitsAmongAreBounded(s1, tables[1..], peer, now);
      }
  }

  // ---------------------------------------------------------------- optimality

  /** How good a port is for a peer, best first: free, used by other peers only, used by the
      same peer, in the listening stage. */
  function Tier(t: Table, p: nat, peer: string, now: int): (n: nat)
    requires t.Valid() && 0 < p < PORTS
    ensures 1 <= n <= 4
  {
    if t.connecting[p] then 4
    else
      var kept := Pruned(t.entries[p], now);
      if kept == [] then 1 else if !HasPeer(kept, peer) then 2 else 3
  }

  /** The `i`-th port, counted cyclically from the first one. */
  function Nth(s: Search, i: nat): (p: nat)
    requires s.Valid() && i < s.Size()
    ensures s.min <= p <= s.max
  {
    if s.first + i <= s.max then s.first + i else s.first + i - s.Size()
  }

  /** The inverse of `Nth`. */
  function Position(s: Search, p: nat): (i: nat)
    requires s.Valid() && s.min <= p <= s.max
    ensures i < s.Size() && Nth(s, i) == p
  {
    if p >= s.first then p - s.first else p + s.Size() - s.first
  }

  function SweepPolicy(sweep: nat): Policy {
    Policy(sweep >= 2, sweep >= 3)
  }

  /** The search is about to look at port `i` of the given sweep. */
  predicate At(s: Search, sweep: nat, i: nat)
    requires s.Valid()
  {
    && 1 <= sweep <= 3 && i <= s.Size()
    && s.policy == SweepPolicy(sweep)
    && if i == 0 then sweep == 1 && s.prev == 0 else s.prev == Nth(s, i - 1)
  }

  lemma AdvanceWithin(s: Search, sweep: nat, i: nat)
    requires s.Valid() && At(s, sweep, i) && i < s.Size()
    ensures Advance(s) == Look(s.(prev := Nth(s, i)))
    ensures At(s.(prev := Nth(s, i)), sweep, i + 1)
  {
  }

  /** At the end of a sweep the next one starts at the first port again. */
  lemma AdvanceToNextSweep(s: Search, sweep: nat)
    requires s.Valid() && At(s, sweep, s.Size())
    ensures sweep < 3 ==>
              var s1 := s.(prev := s.first, policy := SweepPolicy(sweep + 1));
              Advance(s) == Look(s1) && At(s1, sweep + 1, 1) && Nth(s, 0) == s.first
    ensures sweep == 3 ==> Advance(s).GiveUp?
  {
  }

  /** What the tries so far may have done to the table: nothing but pruning, and that on all
      the ports looked at in the first sweep. */
  predicate OnlyPruned(t0: Table, t: Table, now: int)
    requires t0.Valid() && t.Valid()
  {
    && t.connecting == t0.connecting
    && forall p :: 0 <= p < PORTS ==> Pruned(t.entries[p], now) == Pruned(t0.entries[p], now)
  }

  predicate IsPruned(t: Table, p: nat, now: int)
    requires t.Valid() && p < PORTS
  {
    t.connecting[p] || t.entries[p] == Pruned(t.entries[p], now)
  }

  /** What a single try does: it takes the port exactly if the tier of the port is within what
      the sweep allows. */
  lemma TryByTier(t: Table, p: nat, peer: string, now: int, sweep: nat)
    requires t.Valid() && 0 < p < PORTS && 1 <= sweep <= 3
    requires sweep > 1 ==> IsPruned(t, p, now)
    requires sweep > 1 ==> Tier(t, p, peer, now) >= sweep
    ensures var a := Tried(t, p, peer, now, SweepPolicy(sweep));
            && (a.got <==> Tier(t, p, peer, now) == sweep)
            && (!a.got ==>
                  && OnlyPruned(t, a.table, now) && IsPruned(a.table, p, now)
                  && forall q :: 0 < q < PORTS && q != p ==> a.table.entries[q] == t.entries[q])
  {
    PrunedIdempotent(t.entries[p], now);
  }

  lemma SameTier(t0: Table, t: Table, p: nat, peer: string, now: int)
    requires t0.Valid() && t.Valid() && OnlyPruned(t0, t, now) && 0 < p < PORTS
    ensures Tier(t, p, peer, now) == Tier(t0, p, peer, now)
  {
  }

  /** The choice that the policy asks for: the best tier, and the first port of it. */
  predicate IsBest(s: Search, t: Table, peer: string, now: int, port: nat)
    requires s.Valid() && t.Valid()
  {
    && s.min <= port <= s.max && Tier(t, port, peer, now) < 4
    && forall q :: s.min <= q <= s.max ==>
         || Tier(t, port, peer, now) < Tier(t, q, peer, now)
         || (Tier(t, port, peer, now) == Tier(t, q, peer, now) && Position(s, port) <= Position(s, q))
  }

  /** Where the search stands: all better tiers are empty, and so is this one as far as it has
      been looked at. */
  predicate Progress(s: Search, t0: Table, t: Table, peer: string, now: int, sweep: nat, i: nat)
    requires s.Valid() && t0.Valid() && t.Valid()
  {
    && OnlyPruned(t0, t, now)
    && forall q :: s.min <= q <= s.max ==>
         && Tier(t0, q, peer, now) >= sweep
         && (Position(s, q) < i ==> Tier(t0, q, peer, now) > sweep)
         && (sweep > 1 || Position(s, q) < i ==> IsPruned(t, q, now))
  }

  /** One round at port `i` of a sweep. */
  lemma Round(s: Search, t0: Table, t: Table, peer: string, now: int, sweep: nat, i: nat)
    requires s.Valid() && t0.Valid() && t.Valid() && 1 <= sweep <= 3 && i < s.Size()
    requires Progress(s, t0, t, peer, now, sweep, i)
    ensures var p := Nth(s, i);
            var a := Tried(t, p, peer, now, SweepPolicy(sweep));
            && (a.got ==> IsBest(s, t0, peer, now, p))
            && (!a.got ==> Progress(s, t0, a.table, peer, now, sweep, i + 1))
  {
    hide Tried, Pruned;
    var p := Nth(s, i);
    var a := Tried(t, p, peer, now, SweepPolicy(sweep));
    assert Position(s, p) == i;
    SameTier(t0, t, p, peer, now);
    TryByTier(t, p, peer, now, sweep);
    if !a.got {
      forall q | s.min <= q <= s.max && (sweep > 1 || Position(s, q) < i + 1)
        ensures IsPruned(a.table, q, now)
      {
        if q != p {
          assert Position(s, q) != i;
          assert a.table.entries[q] == t.entries[q];
        }
      }
    }
  }

  /** The search from a given place on, without interference. */
  lemma {:induction false} FindFrom(s: Search, s0: Search, t0: Table, t: Table, peer: string, now: int, sweep: nat, i: nat)
    requires s.Valid() && s0.Valid() && t0.Valid() && t.Valid() && At(s, sweep, i)
    requires s0.min == s.min && s0.max == s.max && s0.first == s.first
    requires Progress(s0, t0, t, peer, now, sweep, i)
    ensures var r := Find(s, t, peer, now);
            && (r.port == 0 ==> forall q :: s.min <= q <= s.max ==> Tier(t0, q, peer, now) == 4)
            && (r.port != 0 ==> IsBest(s0, t0, peer, now, r.port))
    decreases Budget(s)
  {
    hide Tried, Pruned, Tier, Budget, Progress;
    AdvanceSpendsBudget(s);
    if i == s.Size() && sweep == 3 {
      AdvanceToNextSweep(s, sweep);
      AllListening(s0, t0, t, peer, now);
    } else {
      var sweep1, i1 := sweep, i;
      if i == s.Size() {
        AdvanceToNextSweep(s, sweep);
        NextSweep(s0, t0, t, peer, now, sweep);
        sweep1, i1 := sweep + 1, 0;
      } else {
        AdvanceWithin(s, sweep, i);
      }
      var s1 := Advance(s).s;
      Round(s0, t0, t, peer, now, sweep1, i1);
      var a := Tried(t, s1.prev, peer, now, s1.policy);
      if !a.got {
        FindFrom(s1, s0, t0, a.table, peer, now, sweep1, i1 + 1);
      }
    }
  }

  lemma NextSweep(s: Search, t0: Table, t: Table, peer: string, now: int, sweep: nat)
    requires s.Valid() && t0.Valid() && t.Valid()
    requires Progress(s, t0, t, peer, now, sweep, s.Size())
    ensures Progress(s, t0, t, peer, now, sweep + 1, 0)
  {
  }

  lemma AllListening(s: Search, t0: Table, t: Table, peer: string, now: int)
    requires s.Valid() && t0.Valid() && t.Valid()
    requires Progress(s, t0, t, peer, now, 3, s.Size())
    ensures forall q :: s.min <= q <= s.max ==> Tier(t0, q, peer, now) == 4
  {
  }

  /** The first port that a fresh randomizer hands out is the best one for its peer, and it
      hands out none exactly when every port of the range is in the listening stage. */
  lemma FreshChoiceIsBest(s: Search, t: Table, peer: string, now: int)
    requires s.Valid() && s.prev == 0 && t.Valid()
    ensures var r := Find(s, t, peer, now);
            && (r.port == 0 <==> forall q :: s.min <= q <= s.max ==> t.connecting[q])
            && (r.port != 0 ==> IsBest(s, t, peer, now, r.port))
  {
    hide Tried, Pruned, Budget, Find;
    FindFrom(s, s, t, t, peer, now, 1, 0);
    var r := Find(s, t, peer, now);
    if r.port == 0 {
      forall q | s.min <= q <= s.max
        ensures t.connecting[q]
      {
        assert Tier(t, q, peer, now) == 4;
      }
    }
  }

  /** The mutable randomizer. */
  class Randomizer {
    const min: nat
    const max: nat
    const first: nat
    const peer: string
    const manager: PortManager
    var prev: nat
    var reuseOther: bool
    var reuseSame: bool

    /** `start` is the port that was drawn at random from the range. */
    constructor (manager: PortManager, peer: string, minPort: int, maxPort: int, start: int)
      requires manager.Valid()
      requires Bounds(minPort, maxPort).0 <= start <= Bounds(minPort, maxPort).1
      ensures State().Valid() && State().prev == 0 && this.peer == peer && this.manager == manager
      ensures (min, max) == Bounds(minPort, maxPort) && first == start
    {
      var lo, hi := minPort, maxPort;
      if lo > hi {
        lo, hi := hi, lo;
      }
      if lo <= 0 {
        lo := 1;
      } else if lo > 65535 {
        lo := 65535;
      }
      if hi <= 0 {
        hi := 1;
      } else if hi > 65535 {
        hi := 65535;
      }
      min, max, first := lo, hi, start;
      this.peer, this.manager := peer, manager;
      prev, reuseOther, reuseSame := 0, false, false;
    }

    ghost function State(): Search
      reads this
    {
      Search(min, max, first, prev, Policy(reuseOther, reuseSame))
    }

    /** The head of the loop: on to the next port, unless it is time to give up. */
    method Next() returns (more: bool)
      requires State().Valid()
      modifies this
      ensures Advance(old(State())) == if more then Look(State()) else GiveUp(State())
    {
      if prev == 0 {
        prev := first;
      } else {
        prev := prev + 1;
        if prev < min || prev > max {
          prev := min;
        }
        if prev == first {
          if !reuseOther {
            reuseOther := true;
          } else if !reuseSame {
            reuseSame := true;
          } else {
            return false;
          }
        }
      }
      return true;
    }

    /** `do_get_port`, when nobody else touches the table meanwhile. */
    method DoGetPort(now: int) returns (port: nat)
      requires State().Valid() && manager.Valid()
      modifies this, manager.entries, manager.connecting
      ensures State().Valid()
      ensures var r := Find(old(State()), old(manager.Contents()), peer, now);
              port == r.port && State() == r.search && manager.Contents() == r.table
    {
      hide Tried, Budget;
      ghost var whole := Find(State(), manager.Contents(), peer, now);
      while true
        invariant State().Valid()
        invariant var r := Find(State(), manager.Contents(), peer, now);
                  whole.port == r.port && whole.search == r.search && whole.table == r.table
        decreases Budget(State())
      {
        AdvanceSpendsBudget(State());
        var more := Next();
        if !more {
          return 0;
        }
        var got := manager.Try(prev, peer, now, Policy(reuseOther, reuseSame));
        if got {
          return prev;
        }
      }
    }
  }
}
