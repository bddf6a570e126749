/** The sessions and their transfers as the rows of a list, with a row count that is kept up to
    date beside them (sessionlist.cpp). */
module SessionModel {
  import opened Options
  import opened OrderedMap

  datatype Info = Info(id: nat, host: string, userName: string)
  datatype Entry = Entry(path: string, size: int, written: int, read: int)
  datatype Session = Session(info: Info, entries: seq<Node<Entry>>)
  datatype Row = Row(info: Info, entry: Entry)

  /** An entry as it is default-constructed: the row of a session without transfers shows it. */
  const Idle := Entry("", 0, 0, 0)

  // ---------------------------------------------------------------- rows

  function EntryRows(info: Info, entries: seq<Node<Entry>>): (r: seq<Row>)
    ensures |r| == |entries|
    decreases |entries|
  {
    if entries == [] then [] else [Row(info, entries[0].value)] + EntryRows(info, entries[1..])
  }

  function SessionRows(s: Session): (r: seq<Row>)
    ensures |r| == if |s.entries| > 1 then |s.entries| else 1
  {
    if s.entries == [] then [Row(s.info, Idle)] else EntryRows(s.info, s.entries)
  }

  /** Everything the list shows, from top to bottom. */
  function Rows(sessions: seq<Node<Session>>): seq<Row>
    decreases |sessions|
  {
    if sessions == [] then [] else SessionRows(sessions[0].value) + Rows(sessions[1..])
  }

  lemma {:induction false} RowsConcat(a: seq<Node<Session>>, b: seq<Node<Session>>)
    ensures Rows(a + b) == Rows(a) + Rows(b)
    decreases |a|
  {
    if a == [] {
      assert a + b == b;
    } else {
      assert (a + b)[1..] == a[1..] + b;
      RowsConcat(a[1..], b);
      assert SessionRows(a[0].value) + (Rows(a[1..]) + Rows(b)) == Rows(a) + Rows(b);
    }
  }

  /** One session in the middle contributes its own rows. */
  lemma RowsSplit(a: seq<Node<Session>>, n: Node<Session>, b: seq<Node<Session>>)
    ensures |Rows(a + [n] + b)| == |Rows(a + b)| + |SessionRows(n.value)|
  {
    RowsConcat(a, b);
    RowsConcat(a + [n], b);
    RowsConcat(a, [n]);
    assert [n][1..] == [];
  }

  lemma {:induction false} NoMoreSessionsThanRows(sessions: seq<Node<Session>>)
    ensures |sessions| <= |Rows(sessions)|
    decreases |sessions|
  {
    if sessions != [] {
      NoMoreSessionsThanRows(sessions[1..]);
    }
  }

  /** There are more rows than sessions exactly when a session has several transfers. */
  lemma {:induction false} MoreRowsExactly(sessions: seq<Node<Session>>)
    ensures |Rows(sessions)| == |sessions| <==> forall i :: 0 <= i < |sessions| ==> |sessions[i].value.entries| <= 1
    decreases |sessions|
  {
    hide SessionRows;
    if sessions != [] {
      NoMoreSessionsThanRows(sessions[1..]);
      MoreRowsExactly(sessions[1..]);
      assert forall i :: 1 <= i < |sessions| ==> sessions[i] == sessions[1..][i - 1];
    }
  }

  // ---------------------------------------------------------------- operations

  /** `size_t` arithmetic. */
  function Wrap(n: int): (r: nat)
    ensures r < 0x1_0000_0000_0000_0000
  {
    n % 0x1_0000_0000_0000_0000
  }

  lemma WrapAdd(a: int, b: int)
    ensures Wrap(Wrap(a) + b) == Wrap(a + b)
  {
  }

  datatype State = State(sessions: seq<Node<Session>>, count: nat)

  datatype Op =
    | Add(id: nat, host: string)
    | Remove(id: nat)
    | Clear
    | SetUserName(id: nat, name: string)
    | EntryOpen(id: nat, entry: nat, path: string, size: int)
    | EntryClose(id: nat, entry: nat)
    | SetEntryWritten(id: nat, entry: nat, amount: int, size: int)
    | SetEntryRead(id: nat, entry: nat, amount: int)

  /** The entries of `e` with what `op` says about a transfer; a transfer that is not known gets
      an entry (`operator[]`). */
  function SetEntry(entries: seq<Node<Entry>>, op: Op): seq<Node<Entry>>
    requires op.SetEntryWritten? || op.SetEntryRead?
  {
    var was := if Has(entries, op.entry) then entries[Position(entries, op.entry)].value else Idle;
    var now := if op.SetEntryWritten? then was.(written := op.amount, size := op.size) else was.(read := op.amount);
    if Has(entries, op.entry) then Update(entries, op.entry, now) else Insert(entries, op.entry, now)
  }

  /** What `op` makes of the session it is for. */
  function DoSession(s: Session, op: Op): Session {
    match op
    case SetUserName(_, name) => s.(info := s.info.(userName := name))
    case EntryOpen(_, entry, path, size) =>
      if Has(s.entries, entry) then s
      else s.(entries := Insert(s.entries, entry, Entry(path, size, 0, 0)))
    case EntryClose(_, entry) =>
      if !Has(s.entries, entry) then s else s.(entries := Erase(s.entries, entry))
    case SetEntryWritten(_, _, _, _) => s.(entries := SetEntry(s.entries, op))
    case SetEntryRead(_, _, _) => s.(entries := SetEntry(s.entries, op))
    case _ => s
  }

  /** What `op` adds to the count for the session it is for. */
  function CountChange(s: Session, op: Op): int {
    match op
    case EntryOpen(_, entry, _, _) => if !Has(s.entries, entry) && |s.entries| + 1 > 1 then 1 else 0
    case EntryClose(_, entry) => if Has(s.entries, entry) && |s.entries| - 1 > 0 then -1 else 0
    case _ => 0
  }

  function Do(s: State, op: Op): State {
    match op
    case Clear => State([], 0)
    case Add(id, host) =>
      if Has(s.sessions, id) then s
      else State(Insert(s.sessions, id, Session(Info(id, host, ""), [])), Wrap(s.count + 1))
    case Remove(id) =>
      if !Has(s.sessions, id) then s
      else
        var entries := s.sessions[Position(s.sessions, id)].value.entries;
        State(Erase(s.sessions, id), Wrap(s.count - if |entries| > 1 then |entries| else 1))
    case _ =>
      if !Has(s.sessions, op.id) then s
      else
        var session := s.sessions[Position(s.sessions, op.id)].value;
        State(Update(s.sessions, op.id, DoSession(session, op)), Wrap(s.count + CountChange(session, op)))
  }

  /** Whether `op` reports on a transfer that is not known, in a session that has others: the
      entry it makes is a row that is not counted. */
  predicate Uncounted(s: State, op: Op) {
    && (op.SetEntryWritten? || op.SetEntryRead?)
    && Has(s.sessions, op.id)
    && var entries := s.sessions[Position(s.sessions, op.id)].value.entries;
       entries != [] && !Has(entries, op.entry)
  }

  /** The state after `ops`. */
  function Run(ops: seq<Op>): State
    decreases |ops|
  {
    if ops == [] then State([], 0) else Do(Run(ops[..|ops| - 1]), ops[|ops| - 1])
  }

  /** How many rows have not been counted since the list was last cleared. */
  function Drift(ops: seq<Op>): nat
    decreases |ops|
  {
    if ops == [] then 0
    else
      var before, op := ops[..|ops| - 1], ops[|ops| - 1];
      if op.Clear? then 0 else Drift(before) + if Uncounted(Run(before), op) then 1 else 0
  }

  // ---------------------------------------------------------------- the law of the count

  /** How one session's rows change, against what is counted for it. */
  lemma SessionRowsChange(s: Session, op: Op)
    ensures |SessionRows(DoSession(s, op))| - |SessionRows(s)|
         == CountChange(s, op)
            + if (op.SetEntryWritten? || op.SetEntryRead?) && s.entries != [] && !Has(s.entries, op.entry) then 1 else 0
  {
  }

  lemma UpdateRows(sessions: seq<Node<Session>>, id: nat, now: Session)
    requires Has(sessions, id)
    ensures |Rows(Update(sessions, id, now))|
         == |Rows(sessions)| + |SessionRows(now)| - |SessionRows(sessions[Position(sessions, id)].value)|
  {
    hide SessionRows, Rows;
    var p := Position(sessions, id);
    var a, b := sessions[..p], sessions[p + 1..];
    assert sessions == a + [sessions[p]] + b;
    assert Update(sessions, id, now) == a + [Node(id, now)] + b;
    RowsSplit(a, sessions[p], b);
    RowsSplit(a, Node(id, now), b);
  }

  /** Rows and count drift apart by the uncounted rows, and by nothing else. */
  lemma StepCounts(s: State, op: Op, drift: nat)
    requires s.count == Wrap(|Rows(s.sessions)| - drift)
    ensures Do(s, op).count
         == Wrap(|Rows(Do(s, op).sessions)| - if op.Clear? then 0 else drift + if Uncounted(s, op) then 1 else 0)
  {
    hide Rows, SessionRows, Wrap, Insert, Erase, Update, Position, DoSession, CountChange, EntryRows;
    if op.Clear? {
      NoRows();
    } else if op.Add? {
      if !Has(s.sessions, op.id) {
        InsertRows(s.sessions, op.id, Session(Info(op.id, op.host, ""), []));
        WrapAdd(|Rows(s.sessions)| - drift, 1);
      }
    } else if op.Remove? {
      if Has(s.sessions, op.id) {
        EraseRows(s.sessions, op.id);
        WrapAdd(|Rows(s.sessions)| - drift, -|SessionRows(s.sessions[Position(s.sessions, op.id)].value)|);
      }
    } else if Has(s.sessions, op.id) {
      var session := s.sessions[Position(s.sessions, op.id)].value;
      UpdateRows(s.sessions, op.id, DoSession(session, op));
      SessionRowsChange(session, op);
      WrapAdd(|Rows(s.sessions)| - drift, CountChange(session, op));
    }
  }

  lemma NoRows()
    ensures Wrap(|Rows([])| - 0) == 0
  {
  }

  lemma InsertRows(sessions: seq<Node<Session>>, id: nat, session: Session)
    ensures |Rows(Insert(sessions, id, session))| == |Rows(sessions)| + |SessionRows(session)|
  {
    hide SessionRows, Rows;
    var p := Position(sessions, id);
    RowsSplit(sessions[..p], Node(id, session), sessions[p..]);
    assert sessions[..p] + sessions[p..] == sessions;
  }

  lemma EraseRows(sessions: seq<Node<Session>>, id: nat)
    requires Has(sessions, id)
    ensures |Rows(Erase(sessions, id))|
         == |Rows(sessions)| - |SessionRows(sessions[Position(sessions, id)].value)|
  {
    hide SessionRows, Rows;
    var p := Position(sessions, id);
    RowsSplit(sessions[..p], sessions[p], sessions[p + 1..]);
    assert sessions[..p] + [sessions[p]] + sessions[p + 1..] == sessions;
  }

  /** After any run of operations the count is the number of rows less the uncounted ones, as
      far as a `size_t` can tell. */
  lemma {:induction false} CountLaw(ops: seq<Op>)
    ensures Run(ops).count == Wrap(|Rows(Run(ops).sessions)| - Drift(ops))
    decreases |ops|
  {
    hide Do, Uncounted, Wrap, Rows;
    if ops == [] {
      NoRows();
    } else {
      CountLaw(ops[..|ops| - 1]);
      StepCounts(Run(ops[..|ops| - 1]), ops[|ops| - 1], Drift(ops[..|ops| - 1]));
    }
  }

  /** The count is right exactly when no uncounted row came in since the last clearing (or a
      multiple of 2^64 of them did). */
  lemma CountIsRightExactly(ops: seq<Op>)
    requires |Rows(Run(ops).sessions)| < 0x1_0000_0000_0000_0000
    ensures Run(ops).count == |Rows(Run(ops).sessions)| <==> Drift(ops) % 0x1_0000_0000_0000_0000 == 0
  {
    hide Rows, Run, Drift;
    CountLaw(ops);
  }

  /** A transfer that is reported without having been opened, beside one that was: with its
      session removed no row is left, and the count is the largest `size_t`. */
  lemma CountWrapsAround()
    ensures var ops := [Add(7, ""), EntryOpen(7, 1, "/a", 0), SetEntryWritten(7, 2, 100, 0), Remove(7)];
            Rows(Run(ops).sessions) == [] && Run(ops).count == 0xFFFF_FFFF_FFFF_FFFF
  {
    hide *;
    RunOfFour(Add(7, ""), EntryOpen(7, 1, "/a", 0), SetEntryWritten(7, 2, 100, 0), Remove(7));
    OpenTransfer();
    RemoveBusier();
    NoRowsShown();
  }

  lemma RunOfFour(a: Op, b: Op, c: Op, d: Op)
    ensures Run([a, b, c, d]) == Do(Do(Do(Do(State([], 0), a), b), c), d)
  {
    hide Do;
    assert [a, b, c, d][..3] == [a, b, c] && [a, b, c][..2] == [a, b] && [a, b][..1] == [a] && [a][..0] == [];
    assert Run([]) == State([], 0);
    assert Run([a]) == Do(Run([]), a);
    assert Run([a, b]) == Do(Run([a]), b);
    assert Run([a, b, c]) == Do(Run([a, b]), c);
  }

  const Opened := [Node(1, Entry("/a", 0, 0, 0))]
  const OpenedAndUnknown := Opened + [Node(2, Entry("", 0, 100, 0))]

  lemma OpenTransfer()
    ensures Do(Do(State([], 0), Add(7, "")), EntryOpen(7, 1, "/a", 0))
         == State([Node(7, Session(Info(7, "", ""), Opened))], 1)
  {
    var idle := Session(Info(7, "", ""), []);
    assert Do(State([], 0), Add(7, "")) == State([Node(7, idle)], 1);
    assert DoSession(idle, EntryOpen(7, 1, "/a", 0)) == Session(idle.info, Opened);
  }

  lemma UnknownTransfer()
    ensures SetEntry(Opened, SetEntryWritten(7, 2, 100, 0)) == OpenedAndUnknown
  {
    assert Position(Opened, 2) == 1;
  }

  lemma RemoveBusier()
    ensures Do(Do(State([Node(7, Session(Info(7, "", ""), Opened))], 1), SetEntryWritten(7, 2, 100, 0)), Remove(7))
         == State([], 0xFFFF_FFFF_FFFF_FFFF)
  {
    hide SetEntry;
    UnknownTransfer();
    var busy, busier := Session(Info(7, "", ""), Opened), Session(Info(7, "", ""), OpenedAndUnknown);
    var op := SetEntryWritten(7, 2, 100, 0);
    assert DoSession(busy, op) == busier && CountChange(busy, op) == 0;
    hide DoSession, CountChange;
    assert Do(State([Node(7, busy)], 1), op) == State([Node(7, busier)], 1);
  }

  lemma NoRowsShown()
    ensures Rows([]) == []
  {
  }

  // ---------------------------------------------------------------- order

  /** Sessions and transfers are kept in the order of their ids, and a session keeps its id. */
  ghost predicate InOrder(sessions: seq<Node<Session>>) {
    && Sorted(sessions)
    && forall i :: 0 <= i < |sessions| ==>
         Sorted(sessions[i].value.entries) && sessions[i].value.info.id == sessions[i].key
  }

  lemma SessionStaysInOrder(s: Session, op: Op)
    requires Sorted(s.entries)
    ensures Sorted(DoSession(s, op).entries) && DoSession(s, op).info.id == s.info.id
  {
    if op.EntryOpen? && !Has(s.entries, op.entry) {
      InsertFinds(s.entries, op.entry, Entry(op.path, op.size, 0, 0), 0);
    } else if op.EntryClose? && Has(s.entries, op.entry) {
      EraseFinds(s.entries, op.entry, 0);
    } else if op.SetEntryWritten? || op.SetEntryRead? {
      var was := if Has(s.entries, op.entry) then s.entries[Position(s.entries, op.entry)].value else Idle;
      var now := if op.SetEntryWritten? then was.(written := op.amount, size := op.size) else was.(read := op.amount);
      if Has(s.entries, op.entry) {
        UpdateFinds(s.entries, op.entry, now, 0);
      } else {
        InsertFinds(s.entries, op.entry, now, 0);
      }
    }
  }

  lemma StepStaysInOrder(s: State, op: Op)
    requires InOrder(s.sessions)
    ensures InOrder(Do(s, op).sessions)
  {
    hide DoSession, CountChange, Position;
    if op.Add? {
      if !Has(s.sessions, op.id) {
        InsertFinds(s.sessions, op.id, Session(Info(op.id, op.host, ""), []), 0);
      }
    } else if op.Remove? {
      if Has(s.sessions, op.id) {
        EraseFinds(s.sessions, op.id, 0);
      }
    } else if !op.Clear? && Has(s.sessions, op.id) {
      var session := s.sessions[Position(s.sessions, op.id)].value;
      SessionStaysInOrder(session, op);
      UpdateFinds(s.sessions, op.id, DoSession(session, op), 0);
    }
  }

  lemma {:induction false} RunsStayInOrder(ops: seq<Op>)
    ensures InOrder(Run(ops).sessions)
    decreases |ops|
  {
    hide Do, InOrder;
    if ops == [] {
      NothingInOrder();
    } else {
      RunsStayInOrder(ops[..|ops| - 1]);
      StepStaysInOrder(Run(ops[..|ops| - 1]), ops[|ops| - 1]);
    }
  }

  lemma NothingInOrder()
    ensures InOrder([])
  {
  }

  /** An operation changes nothing but the session it is for. */
  lemma OnlyItsSession(s: State, op: Op, other: nat)
    requires InOrder(s.sessions) && !op.Clear?
    ensures other != op.id ==> Find(Do(s, op).sessions, other) == Find(s.sessions, other)
    ensures Find(Do(s, op).sessions, op.id) ==
            match Find(s.sessions, op.id)
            case None => if op.Add? then Some(Session(Info(op.id, op.host, ""), [])) else None
            case Some(session) => if op.Remove? then None else Some(DoSession(session, op))
  {
    hide DoSession, CountChange, Position;
    if op.Add? {
      if !Has(s.sessions, op.id) {
        InsertFinds(s.sessions, op.id, Session(Info(op.id, op.host, ""), []), other);
        InsertFinds(s.sessions, op.id, Session(Info(op.id, op.host, ""), []), op.id);
      } else {
        AddIsForNew(s.sessions[Position(s.sessions, op.id)].value, op);
      }
    } else if op.Remove? {
      if Has(s.sessions, op.id) {
        EraseFinds(s.sessions, op.id, other);
        EraseFinds(s.sessions, op.id, op.id);
      }
    } else if Has(s.sessions, op.id) {
      var session := s.sessions[Position(s.sessions, op.id)].value;
      UpdateFinds(s.sessions, op.id, DoSession(session, op), other);
      UpdateFinds(s.sessions, op.id, DoSession(session, op), op.id);
    }
  }

  lemma AddIsForNew(s: Session, op: Op)
    requires op.Add?
    ensures DoSession(s, op) == s
  {
  }

  // ---------------------------------------------------------------- what operations do to a transfer

  /** The transfers of a session after an operation for it: only the one that is named changes. Opening
      makes an entry unless there is one, closing takes it away, and a report sets what it reports,
      on an empty entry if there is none. */
  lemma TransferAfter(s: Session, op: Op, other: nat)
    requires Sorted(s.entries)
    requires op.EntryOpen? || op.EntryClose? || op.SetEntryWritten? || op.SetEntryRead?
    ensures var r := DoSession(s, op);
            && r.info == s.info
            && (other != op.entry ==> Find(r.entries, other) == Find(s.entries, other))
            && Find(r.entries, op.entry) ==
               match op
               case EntryOpen(_, _, path, size) =>
                 if Find(s.entries, op.entry).Some? then Find(s.entries, op.entry) else Some(Entry(path, size, 0, 0))
               case EntryClose(_, _) => None
               case SetEntryWritten(_, _, amount, size) =>
                 (match Find(s.entries, op.entry)
                  case None => Some(Entry("", size, amount, 0))
                  case Some(e) => Some(Entry(e.path, size, amount, e.read)))
               case SetEntryRead(_, _, amount) =>
                 (match Find(s.entries, op.entry)
                  case None => Some(Entry("", 0, 0, amount))
                  case Some(e) => Some(Entry(e.path, e.size, e.written, amount)))
               case _ => None
  {
    hide Position;
    if op.EntryOpen? {
      if !Has(s.entries, op.entry) {
        InsertFinds(s.entries, op.entry, Entry(op.path, op.size, 0, 0), other);
        InsertFinds(s.entries, op.entry, Entry(op.path, op.size, 0, 0), op.entry);
      }
    } else if op.EntryClose? {
      if Has(s.entries, op.entry) {
        EraseFinds(s.entries, op.entry, other);
        EraseFinds(s.entries, op.entry, op.entry);
      }
    } else {
      var was := if Has(s.entries, op.entry) then s.entries[Position(s.entries, op.entry)].value else Idle;
      var now := if op.SetEntryWritten? then was.(written := op.amount, size := op.size) else was.(read := op.amount);
      if Has(s.entries, op.entry) {
        UpdateFinds(s.entries, op.entry, now, other);
        UpdateFinds(s.entries, op.entry, now, op.entry);
      } else {
        InsertFinds(s.entries, op.entry, now, other);
        InsertFinds(s.entries, op.entry, now, op.entry);
      }
    }
  }

  /** Naming the user changes the name only. */
  lemma NamedUser(s: Session, id: nat, name: string)
    ensures DoSession(s, SetUserName(id, name)) == Session(Info(s.info.id, s.info.host, name), s.entries)
  {
  }

  // ---------------------------------------------------------------- where a row is

  /** Number of rows in front of those of the `i`-th session. */
  function RowsBefore(sessions: seq<Node<Session>>, i: nat): nat
    requires i <= |sessions|
  {
    if i == 0 then 0
    else
      var n := |sessions[i - 1].value.entries|;
      RowsBefore(sessions, i - 1) + if n > 1 then n else 1
  }

  /** Sessions come in their order, the transfers of each in theirs, and an idle session has one row
      without a transfer. */
  lemma RowsAt(sessions: seq<Node<Session>>, i: nat, j: nat)
    requires i < |sessions|
    requires j < if |sessions[i].value.entries| > 1 then |sessions[i].value.entries| else 1
    ensures var s, k := sessions[i].value, RowsBefore(sessions, i) + j;
            && k < |Rows(sessions)|
            && Rows(sessions)[k] == Row(s.info, if s.entries == [] then Entry("", 0, 0, 0) else s.entries[j].value)
  {
    hide Rows;
    var a, n, b := sessions[..i], sessions[i], sessions[i + 1..];
    assert sessions == a + ([n] + b);
    RowsConcat(a, [n] + b);
    RowsConcat([n], b);
    RowsOfOne(n);
    RowsBeforeCounts(sessions, i);
    if n.value.entries != [] {
      EntryRowsAt(n.value.info, n.value.entries, j);
    }
  }

  lemma RowsOfOne(n: Node<Session>)
    ensures Rows([n]) == SessionRows(n.value)
  {
    assert [n][1..] == [];
  }

  lemma {:induction false} RowsBeforeCounts(sessions: seq<Node<Session>>, i: nat)
    requires i <= |sessions|
    ensures RowsBefore(sessions, i) == |Rows(sessions[..i])|
    decreases i
  {
    hide Rows, SessionRows;
    if i > 0 {
      RowsBeforeCounts(sessions, i - 1);
      assert sessions[..i] == sessions[..i - 1] + [sessions[i - 1]];
      RowsConcat(sessions[..i - 1], [sessions[i - 1]]);
      RowsOfOne(sessions[i - 1]);
    } else {
      NoRowsShown();
    }
  }

  lemma {:induction false} EntryRowsAt(info: Info, entries: seq<Node<Entry>>, j: nat)
    requires j < |entries|
    ensures EntryRows(info, entries)[j] == Row(info, entries[j].value)
  {
    if j > 0 {
      EntryRowsAt(info, entries[1..], j - 1);
    }
  }
}
